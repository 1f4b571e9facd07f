/** internal/manifest: the set of live SSTables, file names and the binary format. */
module Manifest {
  import opened Bytes

  datatype FileMeta = FileMeta(
    name: Bytes, level: nat, minKey: Bytes, maxKey: Bytes, maxSeq: nat, entries: nat, fileSize: nat)

  /** State without its timestamp. */
  datatype State = State(version: nat, nextFile: nat, logSeq: nat, files: seq<FileMeta>)

  const VERSION: nat := 1
  const INITIAL := State(VERSION, 1, 0, [])

  // ---------- File names: "%06d.sst" ----------

  function Digits(n: nat): (d: Bytes)
    ensures |d| > 0
  {
    if n < 10 then [48 + n] else Digits(n / 10) + [48 + n % 10]
  }

  function Padded(d: Bytes, width: nat): Bytes
    decreases width - |d|
  {
    if |d| >= width then d else Padded([48] + d, width)
  }

  function FileName(n: nat): Bytes {
    Padded(Digits(n), 6) + [46, 115, 115, 116]
  }

  function NumberOf(d: Bytes): int {
    if d == [] then 0 else 10 * NumberOf(d[..|d| - 1]) + d[|d| - 1] - 48
  }

  lemma {:induction false} DigitsNumber(n: nat)
    ensures NumberOf(Digits(n)) == n
  {
    if n >= 10 {
      DigitsNumber(n / 10);
      assert Digits(n)[..|Digits(n)| - 1] == Digits(n / 10);
    } else {
      assert Digits(n)[..0] == [];
    }
  }

  lemma {:induction false} LeadingZero(d: Bytes)
    ensures NumberOf([48] + d) == NumberOf(d)
  {
    var z := [48] + d;
    if d == [] {
      assert z[..0] == [];
    } else {
      assert z[..|z| - 1] == [48] + d[..|d| - 1];
      LeadingZero(d[..|d| - 1]);
    }
  }

  lemma {:induction false} PaddedNumber(d: Bytes, width: nat)
    ensures NumberOf(Padded(d, width)) == NumberOf(d)
    decreases width - |d|
  {
    if |d| < width {
      LeadingZero(d);
      PaddedNumber([48] + d, width);
    }
  }

  /** Different file numbers have different names, past six digits too. */
  lemma {:induction false} FileNameInjective(m: nat, n: nat)
    ensures FileName(m) == FileName(n) ==> m == n
  {
    var a, b := Padded(Digits(m), 6), Padded(Digits(n), 6);
    DigitsNumber(m);
    DigitsNumber(n);
    PaddedNumber(Digits(m), 6);
    PaddedNumber(Digits(n), 6);
    if FileName(m) == FileName(n) {
      assert a == FileName(m)[..|FileName(m)| - 4] && b == FileName(n)[..|FileName(n)| - 4];
    }
  }

  function Pow10(i: nat): (p: nat)
    ensures p > 0
  {
    if i == 0 then 1 else 10 * Pow10(i - 1)
  }

  /** Decimal digit i of n, counted from the lowest. */
  function Digit(n: nat, i: nat): nat {
    n / Pow10(i) % 10
  }

  /** Character i from the right is decimal digit i of n; there are as many as n has digits. */
  lemma {:induction false} DigitsAt(n: nat, i: nat)
    requires i < |Digits(n)|
    ensures Digits(n)[|Digits(n)| - 1 - i] == 48 + Digit(n, i)
    ensures n < Pow10(|Digits(n)|) && (|Digits(n)| == 1 || Pow10(|Digits(n)| - 1) <= n)
  {
    if n >= 10 {
      DigitsAt(n / 10, if i > 0 then i - 1 else 0);
      if i > 0 {
        DivTwice(n, 10, Pow10(i - 1));
      }
    }
    if i == 0 {
      assert n / 1 == n;
    }
  }

  lemma {:induction false} PaddedLength(d: Bytes, width: nat)
    ensures |Padded(d, width)| == if |d| >= width then |d| else width
    decreases width - |d|
  {
    if |d| < width {
      PaddedLength([48] + d, width);
    }
  }

  /** Counted from the right, the characters of d and then zeros. */
  lemma {:induction false} PaddedAt(d: Bytes, width: nat, i: nat)
    requires i < |Padded(d, width)|
    ensures |Padded(d, width)| >= |d|
    ensures Padded(d, width)[|Padded(d, width)| - 1 - i] == if i < |d| then d[|d| - 1 - i] else 48
    decreases width - |d|
  {
    if |d| < width {
      PaddedAt([48] + d, width, i);
    }
  }

  /** A name is the decimal number, padded with zeros to six digits, and ".sst". */
  lemma {:induction false} FileNameForm(n: nat)
    ensures var name, len := FileName(n), |FileName(n)| - 4;
      && len >= 6 && name[len..] == [46, 115, 115, 116]
      && (len == 6 || Pow10(len - 1) <= n) && n < Pow10(len)
      && forall i | 0 <= i < len :: name[len - 1 - i] == 48 + Digit(n, i)
  {
    hide FileName, Pow10, Digit;
    NameShape(n);
    var len := |FileName(n)| - 4;
    forall i | 0 <= i < len ensures FileName(n)[len - 1 - i] == 48 + Digit(n, i) {
      NameDigit(n, i);
    }
  }

  lemma {:induction false} NameShape(n: nat)
    ensures var name, len := FileName(n), |FileName(n)| - 4;
      && len == |Padded(Digits(n), 6)| >= 6 && name[len..] == [46, 115, 115, 116]
      && (len == 6 || Pow10(len - 1) <= n) && n < Pow10(len)
  {
    hide Digits, Padded, Pow10, Digit;
    PaddedLength(Digits(n), 6);
    DigitsAt(n, 0);
    Pow10Grows(|Digits(n)|, |Padded(Digits(n), 6)|);
  }

  lemma {:induction false} NameDigit(n: nat, i: nat)
    requires i < |FileName(n)| - 4
    ensures FileName(n)[|FileName(n)| - 5 - i] == 48 + Digit(n, i)
  {
    hide Digits, Padded, Pow10, Digit;
    var d, p := Digits(n), Padded(Digits(n), 6);
    PaddedAt(d, 6, i);
    assert FileName(n)[|p| - 1 - i] == p[|p| - 1 - i];
    DigitsAt(n, if i < |d| then i else 0);
    if i >= |d| {
      Pow10Grows(|d|, i);
      NoDigit(n, i);
    }
  }

  lemma {:induction false} NoDigit(n: nat, i: nat)
    requires n < Pow10(i)
    ensures Digit(n, i) == 0
  {
    DivisionIs(n, 0, n, Pow10(i));
  }

  lemma {:induction false} Pow10Grows(m: nat, n: nat)
    requires m <= n
    ensures Pow10(m) <= Pow10(n)
  {
    if m < n {
      Pow10Grows(m, n - 1);
    }
  }

  /** Some file number below `next` has this name. */
  ghost predicate Allocated(name: Bytes, next: nat) {
    exists n: nat :: n < next && name == FileName(n)
  }

  lemma {:induction false} NextNameIsFresh(next: nat)
    ensures !Allocated(FileName(next), next)
    ensures Allocated(FileName(next), next + 1)
    ensures forall name :: Allocated(name, next) ==> Allocated(name, next + 1)
  {
    forall n: nat | n < next ensures FileName(n) != FileName(next) {
      FileNameInjective(n, next);
    }
    forall name | Allocated(name, next) ensures Allocated(name, next + 1) {
      var n: nat :| n < next && name == FileName(n);
      assert n < next + 1;
    }
  }

  // ---------- Updates ----------

  function Without(files: seq<FileMeta>, names: set<Bytes>): (r: seq<FileMeta>)
    ensures forall f :: f in r <==> f in files && f.name !in names
  {
    if files == [] then []
    else
      var f, rest := files[|files| - 1], Without(files[..|files| - 1], names);
      if f.name in names then rest else rest + [f]
  }

  /** `part` is what `all` has at the positions `at`, each taken once and in order. */
  ghost predicate IsSelection<T>(all: seq<T>, part: seq<T>, at: seq<nat>) {
    && |at| == |part|
    && (forall j | 0 <= j < |at| :: at[j] < |all| && part[j] == all[at[j]])
    && (forall i, j | 0 <= i < j < |at| :: at[i] < at[j])
  }

  /** `part` has exactly the files that are not named, each once and in order. */
  ghost predicate IsKept(files: seq<FileMeta>, part: seq<FileMeta>, names: set<Bytes>) {
    exists at: seq<nat> :: IsSelection(files, part, at) && TakesUnnamed(files, at, names)
  }

  ghost predicate TakesUnnamed(files: seq<FileMeta>, at: seq<nat>, names: set<Bytes>) {
    forall i | 0 <= i < |files| :: i in at <==> files[i].name !in names
  }

  lemma {:induction false} TakesNone(names: set<Bytes>)
    ensures TakesUnnamed([], [], names)
  {
  }

  lemma {:induction false} TakesMore(files: seq<FileMeta>, at: seq<nat>, f: FileMeta, names: set<Bytes>)
    requires TakesUnnamed(files, at, names) && |files| !in at
    ensures TakesUnnamed(files + [f], if f.name in names then at else at + [|files|], names)
  {
  }

  lemma {:induction false} SelectMore<T>(all: seq<T>, part: seq<T>, at: seq<nat>, x: T, take: bool)
    requires IsSelection(all, part, at)
    ensures if take then IsSelection(all + [x], part + [x], at + [|all|]) else IsSelection(all + [x], part, at)
    ensures |all| !in at
  {
  }

  lemma {:induction false} WithoutSelects(files: seq<FileMeta>, names: set<Bytes>) returns (at: seq<nat>)
    ensures IsSelection(files, Without(files, names), at) && TakesUnnamed(files, at, names)
  {
    hide TakesUnnamed;
    if files == [] {
      at := [];
      TakesNone(names);
    } else {
      var n := |files| - 1;
      var f, rest := files[n], files[..n];
      at := WithoutSelects(rest, names);
      SelectMore(rest, Without(rest, names), at, f, f.name !in names);
      TakesMore(rest, at, f, names);
      assert files == rest + [f];
      if f.name !in names {
        at := at + [n];
      }
    }
  }

  function Max(a: nat, b: nat): nat {
    if a < b then b else a
  }

  function Alloc(st: State): State {
    st.(nextFile := st.nextFile + 1)
  }

  function Add(st: State, f: FileMeta, logSeq: nat): State {
    st.(files := st.files + [f], logSeq := Max(st.logSeq, logSeq))
  }

  function Replace(st: State, remove: set<Bytes>, add: seq<FileMeta>, logSeq: nat): State {
    st.(files := Without(st.files, remove) + add, logSeq := Max(st.logSeq, logSeq))
  }

  function MaxSeqAmong(files: seq<FileMeta>): (m: nat)
    ensures forall f | f in files :: f.maxSeq <= m
    ensures m == 0 || exists f :: f in files && f.maxSeq == m
  {
    if files == [] then 0
    else
      var f, m := files[|files| - 1], MaxSeqAmong(files[..|files| - 1]);
      assert f in files;
      if f.maxSeq > m then f.maxSeq else m
  }

  ghost predicate Distinct(files: seq<FileMeta>) {
    forall i, j | 0 <= i < j < |files| :: files[i].name != files[j].name
  }

  lemma {:induction false} DistinctSnoc(files: seq<FileMeta>, f: FileMeta)
    requires Distinct(files) && forall g | g in files :: g.name != f.name
    ensures Distinct(files + [f])
  {
    forall i, j | 0 <= i < j < |files + [f]| ensures (files + [f])[i].name != (files + [f])[j].name {
      if j == |files| {
        assert files[i] in files;
      }
    }
  }

  /** Live names are pairwise distinct and were all allocated. */
  ghost predicate ValidNames(st: State) {
    && Distinct(st.files)
    && (forall f | f in st.files :: Allocated(f.name, st.nextFile))
  }

  /** The name handed out by AllocFileName belongs to no live file. */
  lemma {:induction false} AllocKeepsNames(st: State)
    requires ValidNames(st)
    ensures ValidNames(Alloc(st))
    ensures Allocated(FileName(st.nextFile), Alloc(st).nextFile)
    ensures forall f | f in st.files :: f.name != FileName(st.nextFile)
  {
    NextNameIsFresh(st.nextFile);
  }

  lemma {:induction false} WithoutKeepsDistinct(files: seq<FileMeta>, names: set<Bytes>)
    requires Distinct(files)
    ensures Distinct(Without(files, names))
  {
    if files != [] {
      var n := |files| - 1;
      var rest := Without(files[..n], names);
      WithoutKeepsDistinct(files[..n], names);
      forall f | f in rest ensures f.name != files[n].name {
        assert f in files[..n];
        var i :| 0 <= i < n && files[i] == f;
      }
      DistinctSnoc(rest, files[n]);
    }
  }

  lemma {:induction false} AddKeepsNames(st: State, f: FileMeta, logSeq: nat)
    requires ValidNames(st) && Allocated(f.name, st.nextFile)
    requires forall g | g in st.files :: g.name != f.name
    ensures ValidNames(Add(st, f, logSeq))
  {
    DistinctSnoc(st.files, f);
  }

  lemma {:induction false} ReplaceKeepsNames(st: State, remove: set<Bytes>, f: FileMeta, logSeq: nat)
    requires ValidNames(st) && Allocated(f.name, st.nextFile)
    requires forall g | g in st.files :: g.name != f.name
    ensures ValidNames(Replace(st, remove, [f], logSeq))
  {
    WithoutKeepsDistinct(st.files, remove);
    DistinctSnoc(Without(st.files, remove), f);
  }

  /** The manifest object: every update is persisted before it returns. */
  class Manifest {
    var state: State
    var disk: State

    ghost predicate Valid()
      reads this
    {
      disk == state
    }

    constructor (disk: Option<State>)
      ensures Valid()
      ensures state == if disk.Some? then disk.value else INITIAL
    {
      var st := if disk.Some? then disk.value else INITIAL;
      this.state, this.disk := st, st;
    }

    method AllocFileName() returns (name: Bytes)
      requires Valid()
      modifies this
      ensures Valid() && state == Alloc(old(state)) && name == FileName(old(state.nextFile))
    {
      name := FileName(state.nextFile);
      state := state.(nextFile := state.nextFile + 1);
      disk := state;
    }

    method AddFile(f: FileMeta, logSeq: nat)
      requires Valid()
      modifies this
      ensures Valid() && state == Add(old(state), f, logSeq)
    {
      state := state.(files := state.files + [f]);
      if logSeq > state.logSeq {
        state := state.(logSeq := logSeq);
      }
      disk := state;
    }

    method ReplaceFiles(remove: seq<Bytes>, add: seq<FileMeta>, logSeq: nat)
      requires Valid()
      modifies this
      ensures Valid() && state == Replace(old(state), (set n | n in remove), add, logSeq)
      ensures var kept := |state.files| - |add|;
        IsKept(old(state.files), state.files[..kept], set n | n in remove) && state.files[kept..] == add
    {
      ghost var at := WithoutSelects(state.files, set n | n in remove);
      var rm := set n | n in remove;
      var kept: seq<FileMeta> := [];
      for i := 0 to |state.files|
        invariant state == old(state)
        invariant kept == Without(state.files[..i], rm)
      {
        assert state.files[..i + 1][..i] == state.files[..i];
        if state.files[i].name !in rm {
          kept := kept + [state.files[i]];
        }
      }
      assert state.files[..|state.files|] == state.files;
      state := state.(files := kept + add);
      if logSeq > state.logSeq {
        state := state.(logSeq := logSeq);
      }
      disk := state;
    }

    method MaxSeqAmongFiles() returns (max: nat)
      ensures max == MaxSeqAmong(state.files)
    {
      max := 0;
      for i := 0 to |state.files|
        invariant max == MaxSeqAmong(state.files[..i])
      {
        assert state.files[..i + 1][..i] == state.files[..i];
        if state.files[i].maxSeq > max {
          max := state.files[i].maxSeq;
        }
      }
      assert state.files[..|state.files|] == state.files;
    }
  }
}
