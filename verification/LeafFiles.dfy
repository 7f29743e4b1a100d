/** The `leaves/` directory: one file per leaf, named by its 20-digit index. */
module LeafFiles {
  import opened Octets
  import Decimal
  import Utf8

  datatype Entry = Regular(data: Bytes) | NotAFile

  type LeafDir = map<Bytes, Entry>

  function Name(i: nat): Bytes { Decimal.Padded(i, 20) }

  predicate Hidden(name: Bytes) { name != [] && name[0] == 0x2E }

  /** Names the enumeration looks at: 20 digits of a u64. */
  predicate LeafName(name: Bytes) {
    |name| == 20 && Decimal.AllDigits(name) && Decimal.Value(name) < U64_LIMIT
  }

  lemma NameIndex(i: nat)
    requires i < U64_LIMIT
    ensures LeafName(Name(i)) && Decimal.Value(Name(i)) == i && !Hidden(Name(i)) && Utf8.IsUtf8(Name(i))
  {
    hide Decimal.Value, Decimal.Padded, Decimal.Exp10, Utf8.IsUtf8;
    Decimal.U64Has20Digits();
    Decimal.ValuePadded(i, 20);
    Utf8.AsciiIsUtf8(Name(i));
  }

  lemma IndexName(name: Bytes)
    requires LeafName(name)
    ensures Name(Decimal.Value(name)) == name
  {
    Decimal.PaddedValue(name);
  }

  /** The directory holds exactly `leaves`: every name is text, and those that do not start
      with '.' are exactly the names of the indices, regular files with the leaves' bytes. */
  ghost predicate Holds(dir: LeafDir, leaves: seq<Bytes>) {
    && |leaves| <= U64_LIMIT
    && (forall name :: name in dir ==> Utf8.IsUtf8(name))
    && (forall name :: name in dir && (name == [] || name[0] != 0x2E) ==> Names(name, |leaves|))
    && (forall i :: 0 <= i < |leaves| ==> Name(i) in dir && dir[Name(i)] == Regular(leaves[i]))
  }

  /** `name` is the name of an index below `n`. */
  ghost predicate Names(name: Bytes, n: nat) { exists i :: 0 <= i < n && name == Name(i) }

  lemma NamesExact(name: Bytes, n: nat)
    requires n <= U64_LIMIT
    ensures Names(name, n) <==> LeafName(name) && Decimal.Value(name) < n
  {
    hide Decimal.Value, Decimal.Padded, Utf8.IsUtf8, LeafName;
    if i :| 0 <= i < n && name == Name(i) {
      NameIndex(i);
    }
    if LeafName(name) {
      IndexName(name);
    }
  }

  /** The same in terms of the checks that the scan makes. */
  ghost predicate Scanned(dir: LeafDir, leaves: seq<Bytes>) {
    && |leaves| <= U64_LIMIT
    && (forall name :: name in dir ==> Utf8.IsUtf8(name))
    && (forall name :: name in dir && !Hidden(name) ==> LeafName(name) && Decimal.Value(name) < |leaves|)
    && (forall i :: 0 <= i < |leaves| ==> Name(i) in dir && dir[Name(i)] == Regular(leaves[i]))
  }

  lemma HoldsExact(dir: LeafDir, leaves: seq<Bytes>)
    ensures Holds(dir, leaves) <==> Scanned(dir, leaves)
  {
    hide Decimal.Value, Name, Utf8.IsUtf8, Names;
    if |leaves| <= U64_LIMIT {
      forall name | name in dir
        ensures Names(name, |leaves|) <==> LeafName(name) && Decimal.Value(name) < |leaves|
      {
        NamesExact(name, |leaves|);
      }
    }
  }

  /** The digits of a file name, most significant first. */
  lemma NameDigits(i: nat, k: nat)
    requires k < 20
    ensures |Name(i)| == 20 && Name(i)[k] == 0x30 + i / Decimal.Exp10(19 - k) % 10
  {
    Decimal.PaddedAt(i, 20, k);
  }

  /** A directory holds at most one leaf list. */
  lemma HoldsUnique(dir: LeafDir, a: seq<Bytes>, b: seq<Bytes>)
    requires Holds(dir, a) && Holds(dir, b)
    ensures a == b
  {
    hide Decimal.Value, Decimal.Padded, Utf8.IsUtf8, Holds;
    HoldsExact(dir, a);
    HoldsExact(dir, b);
    if |a| < |b| {
      NameIndex(|a|);
    }
    if |b| < |a| {
      NameIndex(|b|);
    }
    assert forall i :: 0 <= i < |a| ==> dir[Name(i)] == Regular(a[i]) && dir[Name(i)] == Regular(b[i]);
  }

  /** A new file at the next index adds one leaf; replacing its content replaces the leaf. */
  lemma HoldsAppend(dir: LeafDir, leaves: seq<Bytes>, data: Bytes)
    requires Holds(dir, leaves) && |leaves| < U64_LIMIT
    ensures Name(|leaves|) !in dir
    ensures Holds(dir[Name(|leaves|) := Regular(data)], leaves + [data])
  {
    hide Decimal.Value, Decimal.Padded, Utf8.IsUtf8, LeafName, Holds;
    var n := |leaves|;
    HoldsExact(dir, leaves);
    HoldsExact(dir[Name(n) := Regular(data)], leaves + [data]);
    NameIndex(n);
    forall i | 0 <= i < n
      ensures Name(i) != Name(n)
    {
      NameIndex(i);
    }
  }

  // ----- sorting the indices -----

  function Insert(x: nat, s: seq<nat>): seq<nat> {
    if s == [] || x <= s[0] then [x] + s else [s[0]] + Insert(x, s[1..])
  }

  function Sort(s: seq<nat>): seq<nat> {
    if s == [] then [] else Insert(s[0], Sort(s[1..]))
  }

  predicate Increasing(s: seq<nat>) { forall i, j :: 0 <= i < j < |s| ==> s[i] < s[j] }

  predicate Distinct<T(==)>(s: seq<T>) { forall i, j :: 0 <= i < j < |s| ==> s[i] != s[j] }

  lemma {:induction false} InsertSorted(x: nat, s: seq<nat>)
    requires Increasing(s) && x !in s
    ensures var t := Insert(x, s); Increasing(t) && |t| == |s| + 1 && forall v :: v in t <==> v == x || v in s
  {
    if s != [] && x > s[0] {
      var rest := s[1..];
      assert forall v :: v in s <==> v == s[0] || v in rest;
      InsertSorted(x, rest);
      var t := Insert(x, rest);
      forall v | v in rest
        ensures v > s[0]
      {
        var j :| 0 <= j < |rest| && rest[j] == v;
        assert s[j + 1] == v;
      }
      forall i | 0 <= i < |t|
        ensures t[i] > s[0]
      {
        assert t[i] in t;
      }
    }
  }

  /** Sorting distinct indices: the same indices, strictly increasing. */
  lemma {:induction false} SortSorts(s: seq<nat>)
    requires Distinct(s)
    ensures var t := Sort(s); Increasing(t) && |t| == |s| && forall v :: v in t <==> v in s
  {
    if s != [] {
      var rest := s[1..];
      assert forall v :: v in s <==> v == s[0] || v in rest;
      assert s[0] !in rest;
      SortSorts(rest);
      InsertSorted(s[0], Sort(rest));
    }
  }

  // ----- enumeration -----

  /** `indices` are the indices of the leaf names among `names`. */
  ghost predicate Collected(names: seq<Bytes>, indices: seq<nat>) {
    && Distinct(indices)
    && (forall v :: v in indices ==> v < U64_LIMIT && Name(v) in names)
    && (forall name :: name in names && (name == [] || name[0] != 0x2E) ==>
          LeafName(name) && Decimal.Value(name) in indices)
  }

  /** A gap below some index: no leaf list fits the directory. */
  lemma GapRefutes(dir: LeafDir, names: seq<Bytes>, indices: seq<nat>, sorted: seq<nat>, k: nat, leaves: seq<Bytes>)
    requires (forall name :: name in names <==> name in dir) && Collected(names, indices)
    requires Increasing(sorted) && forall v :: v in sorted <==> v in indices
    requires k < |sorted| && sorted[k] != k && forall j :: 0 <= j < k ==> sorted[j] == j
    ensures !Holds(dir, leaves)
  {
    hide Decimal.Value, Decimal.Padded, Utf8.IsUtf8, LeafName, Holds;
    HoldsExact(dir, leaves);
    if Holds(dir, leaves) {
      assert sorted[k] in indices && (k > 0 ==> sorted[k - 1] == k - 1);
      assert sorted[k] > k;
      NameIndex(sorted[k]);
      NameIndex(k);
    }
  }

  /** Enumerates, validates, sorts, checks contiguity and reads: succeeds exactly when the
      directory holds a leaf list, in whatever order its names are listed. */
  method ReadLeaves(dir: LeafDir, names: seq<Bytes>) returns (r: Option<seq<Bytes>>)
    requires Distinct(names) && forall name :: name in names <==> name in dir
    ensures r.Some? ==> Holds(dir, r.value)
    ensures r.None? ==> forall leaves :: !Holds(dir, leaves)
  {
    hide Name, Utf8.IsUtf8, Sort, LeafName, Holds, Increasing;
    var indices := CollectIndices(dir, names);
    if indices.None? {
      return None;
    }
    var sorted := Sort(indices.value);
    SortSorts(indices.value);
    var gap := FirstGap(sorted);
    if gap < |sorted| {
      forall leaves
        ensures !Holds(dir, leaves)
      {
        GapRefutes(dir, names, indices.value, sorted, gap, leaves);
      }
      return None;
    }
    assert |sorted| > 0 ==> sorted[|sorted| - 1] in sorted;
    var leaves := ReadFiles(dir, sorted);
    ContiguousHolds(dir, names, indices.value, leaves);
    return Some(leaves);
  }

  /** The contiguity loop: the first position that does not hold its own index. */
  method FirstGap(sorted: seq<nat>) returns (k: nat)
    ensures k <= |sorted| && (k < |sorted| ==> sorted[k] != k)
    ensures forall j :: 0 <= j < k ==> sorted[j] == j
  {
    k := 0;
    while k < |sorted| && sorted[k] == k
      invariant k <= |sorted| && forall j :: 0 <= j < k ==> sorted[j] == j
    {
      k := k + 1;
    }
  }

  method ReadFiles(dir: LeafDir, sorted: seq<nat>) returns (leaves: seq<Bytes>)
    requires forall j :: 0 <= j < |sorted| ==> sorted[j] == j && Name(sorted[j]) in dir && dir[Name(sorted[j])].Regular?
    ensures |leaves| == |sorted|
    ensures forall j :: 0 <= j < |leaves| ==> Name(j) in dir && dir[Name(j)] == Regular(leaves[j])
  {
    hide Name;
    leaves := [];
    for k := 0 to |sorted|
      invariant |leaves| == k
      invariant forall j :: 0 <= j < k ==> Name(j) in dir && dir[Name(j)] == Regular(leaves[j])
    {
      leaves := leaves + [dir[Name(sorted[k])].data];
    }
  }

  lemma ContiguousHolds(dir: LeafDir, names: seq<Bytes>, indices: seq<nat>, leaves: seq<Bytes>)
    requires (forall name :: name in names <==> name in dir) && Collected(names, indices)
    requires forall name :: name in dir ==> Utf8.IsUtf8(name)
    requires forall v :: v in indices ==> v < |leaves|
    requires |leaves| > 0 ==> |leaves| - 1 in indices
    requires forall j :: 0 <= j < |leaves| ==> Name(j) in dir && dir[Name(j)] == Regular(leaves[j])
    ensures Holds(dir, leaves)
  {
    hide Holds, Decimal.Value, Decimal.Padded, Utf8.IsUtf8;
    HoldsExact(dir, leaves);
  }

  /** The directory scan. Any entry that is neither hidden nor a leaf file refuses it. */
  method CollectIndices(dir: LeafDir, names: seq<Bytes>) returns (r: Option<seq<nat>>)
    requires Distinct(names) && forall name :: name in names <==> name in dir
    ensures r.Some? ==> Collected(names, r.value) && (forall name :: name in dir ==> Utf8.IsUtf8(name))
                        && forall v :: v in r.value ==> dir[Name(v)].Regular?
    ensures r.None? ==> forall leaves :: !Holds(dir, leaves)
  {
    hide Decimal.Value, Decimal.Padded, Utf8.IsUtf8, Holds;
    var indices: seq<nat> := [];
    for k := 0 to |names|
      invariant Collected(names[..k], indices)
      invariant forall j :: 0 <= j < k ==> Utf8.IsUtf8(names[j])
      invariant forall v :: v in indices ==> Name(v) in dir && dir[Name(v)].Regular?
    {
      var name := names[k];
      assert name in dir;
      assert forall x :: x in names[..k + 1] <==> x in names[..k] || x == name;
      if !Utf8.IsUtf8(name) {
        EntryRefutes(dir, name);
        return None;
      }
      if Hidden(name) {
        continue;
      }
      if !LeafName(name) {
        EntryRefutes(dir, name);
        return None;
      }
      IndexName(name);
      if !dir[name].Regular? {
        EntryRefutes(dir, name);
        return None;
      }
      assert name !in names[..k];
      indices := indices + [Decimal.Value(name)];
    }
    assert names[..|names|] == names;
    assert forall name :: name in dir ==> name in names;
    return Some(indices);
  }

  /** An entry the scan refuses refutes every leaf list. */
  lemma EntryRefutes(dir: LeafDir, name: Bytes)
    requires name in dir
    requires !Utf8.IsUtf8(name) || (!Hidden(name) && (!LeafName(name) || !dir[name].Regular?))
    ensures forall leaves :: !Holds(dir, leaves)
  {
    hide Decimal.Value, Decimal.Padded, Utf8.IsUtf8, Holds;
    forall leaves
      ensures !Holds(dir, leaves)
    {
      HoldsExact(dir, leaves);
      if LeafName(name) {
        IndexName(name);
      }
    }
  }
}
