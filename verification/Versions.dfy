/** The sorted list of distinct compatible versions of a type, computed the way util.h does:
    exchange sort in place, count, copy without repetitions. */
module Versions {
  import opened Schema

  ghost predicate Increasing(ns: seq<nat>) {
    forall i, j | 0 <= i < j < |ns| :: ns[i] < ns[j]
  }

  ghost predicate Sorted(ns: seq<nat>) {
    forall i, j | 0 <= i < j < |ns| :: ns[i] <= ns[j]
  }

  ghost predicate SameElements(a: seq<nat>, b: seq<nat>) {
    forall n :: n in a <==> n in b
  }

  /** ns with x put in its place, unless x is there already. */
  function Insert(x: nat, ns: seq<nat>): seq<nat> {
    if |ns| == 0 || x < ns[0] then [x] + ns
    else if x == ns[0] then ns
    else [ns[0]] + Insert(x, ns[1..])
  }

  function SortedUnique(ns: seq<nat>): seq<nat> {
    if |ns| == 0 then [] else Insert(ns[0], SortedUnique(ns[1..]))
  }

  /** compatible_version_number<T> */
  function VersionsOf(t: Ty): seq<nat> {
    SortedUnique(Collect(t))
  }

  lemma {:induction false} InsertIncreasing(x: nat, ns: seq<nat>)
    requires Increasing(ns)
    ensures Increasing(Insert(x, ns))
    ensures forall n :: n in Insert(x, ns) <==> n == x || n in ns
    ensures |ns| > 0 && x >= ns[0] ==> Insert(x, ns)[0] == ns[0]
  {
    if |ns| > 0 && x > ns[0] {
      InsertIncreasing(x, ns[1..]);
      var rest := Insert(x, ns[1..]);
      assert ns == [ns[0]] + ns[1..];
      forall j | 0 <= j < |rest| ensures ns[0] < rest[j] {
        assert rest[j] in rest;
        if rest[j] != x {
          var k :| 0 <= k < |ns[1..]| && ns[1..][k] == rest[j];
          assert ns[k + 1] == rest[j];
        }
      }
    } else if |ns| > 0 && x < ns[0] {
      assert Insert(x, ns) == [x] + ns;
    }
  }

  lemma {:induction false} SortedUniqueIncreasing(ns: seq<nat>)
    ensures Increasing(SortedUnique(ns))
    ensures SameElements(SortedUnique(ns), ns)
  {
    if |ns| > 0 {
      SortedUniqueIncreasing(ns[1..]);
      InsertIncreasing(ns[0], SortedUnique(ns[1..]));
      assert ns == [ns[0]] + ns[1..];
    }
  }

  /** An increasing list is determined by its elements. */
  lemma {:induction false} IncreasingUnique(a: seq<nat>, b: seq<nat>)
    requires Increasing(a) && Increasing(b) && SameElements(a, b)
    ensures a == b
  {
    assert forall i | 0 <= i < |a| :: a[i] in b;
    assert forall i | 0 <= i < |b| :: b[i] in a;
    if |a| > 0 {
      assert b[0] in a;
      assert a[0] == b[0];
      forall n ensures n in a[1..] <==> n in b[1..] {
        TailElements(a, n);
        TailElements(b, n);
        assert n in a <==> n in b;
      }
      IncreasingUnique(a[1..], b[1..]);
    }
  }

  lemma {:induction false} TailElements(a: seq<nat>, n: nat)
    requires Increasing(a) && |a| > 0
    ensures n in a[1..] <==> n in a && n != a[0]
  {
    if n in a[1..] {
      var k :| 0 <= k < |a[1..]| && a[1..][k] == n;
      assert a[k + 1] == n;
    }
    if n in a && n != a[0] {
      var k :| 0 <= k < |a| && a[k] == n;
      assert a[1..][k - 1] == n;
    }
  }

  /** compile_time_sort */
  method CompileTimeSort(a: array<nat>)
    modifies a
    ensures Sorted(a[..])
    ensures multiset(a[..]) == multiset(old(a[..]))
  {
    var i := 0;
    while i < a.Length
      invariant 0 <= i <= a.Length
      invariant forall p, q | 0 <= p < i && p < q < a.Length :: a[p] <= a[q]
      invariant multiset(a[..]) == multiset(old(a[..]))
    {
      var j := i + 1;
      while j < a.Length
        invariant i < j <= a.Length
        invariant forall p, q | 0 <= p < i && p < q < a.Length :: a[p] <= a[q]
        invariant forall q | i < q < j :: a[i] <= a[q]
        invariant multiset(a[..]) == multiset(old(a[..]))
      {
        if a[i] > a[j] {
          a[i], a[j] := a[j], a[i];
        }
        j := j + 1;
      }
      i := i + 1;
    }
  }

  /** How many elements differ from the one before: the length without repetitions. */
  function Deduped(ns: seq<nat>): seq<nat> {
    if |ns| == 0 then []
    else if |ns| > 1 && ns[|ns| - 1] == ns[|ns| - 2] then Deduped(ns[..|ns| - 1])
    else Deduped(ns[..|ns| - 1]) + [ns[|ns| - 1]]
  }

  ghost predicate NoEqualNeighbours(ns: seq<nat>) {
    forall i | 0 <= i < |ns| - 1 :: ns[i] != ns[i + 1]
  }

  /** Dropping the repetitions of any list: no element is lost and no two neighbours are equal. */
  lemma {:induction false} DedupedOfAny(ns: seq<nat>)
    ensures NoEqualNeighbours(Deduped(ns)) && SameElements(Deduped(ns), ns) && |Deduped(ns)| <= |ns|
    ensures |ns| > 0 ==> |Deduped(ns)| > 0 && Deduped(ns)[|Deduped(ns)| - 1] == ns[|ns| - 1]
  {
    if |ns| > 0 {
      var front, last := ns[..|ns| - 1], ns[|ns| - 1];
      DedupedOfAny(front);
      assert ns == front + [last];
      if |ns| > 1 && ns[|ns| - 2] == last { assert last in front; }
      forall n ensures n in Deduped(ns) <==> n in ns {
        assert n in Deduped(front) <==> n in front;
      }
    }
  }

  /** Of a sorted list an increasing one is left. */
  lemma {:induction false} DedupedOfSorted(ns: seq<nat>)
    requires Sorted(ns)
    ensures Increasing(Deduped(ns)) && SameElements(Deduped(ns), ns)
  {
    DedupedOfAny(ns);
    if |ns| > 0 {
      var front := ns[..|ns| - 1];
      DedupedOfSorted(front);
      DedupedOfAny(front);
    }
  }

  /** calculate_uniqued_size */
  method CalculateUniquedSize(input: array<nat>) returns (count: nat)
    ensures count == |Deduped(input[..])|
  {
    DedupedOfAny(input[..]);
    ghost var dropped := 0;
    var c := input.Length;
    var i := 1;
    if input.Length > 0 { assert Deduped(input[..1]) == [input[0]] by { assert input[..1] == [input[0]]; } }
    while i < input.Length
      invariant input.Length > 0 ==> 1 <= i <= input.Length
      invariant input.Length > 0 ==> c == input.Length - i + |Deduped(input[..i])|
      invariant input.Length == 0 ==> c == 0
    {
      assert input[..i + 1][..i] == input[..i];
      if input[i] == input[i - 1] {
        c := c - 1;
      }
      i := i + 1;
    }
    assert input[..input.Length] == input[..];
    count := c;
  }

  /** compile_time_unique: output has exactly the room that calculate_uniqued_size counted. */
  method CompileTimeUnique(input: array<nat>, output: array<nat>)
    requires input != output && input.Length > 0 && output.Length == |Deduped(input[..])|
    modifies output
    ensures output[..] == Deduped(old(input[..]))
  {
    hide Deduped;
    ghost var ns := input[..];
    DedupedNext(ns, 0);
    var j := 0;
    DedupedGrows(ns, 1);
    output[0] := input[0];
    var i := 1;
    while i < input.Length
      invariant 1 <= i <= input.Length && 0 <= j < output.Length && input[..] == ns
      invariant output[..j + 1] == Deduped(ns[..i])
    {
      DedupedNext(ns, i);
      DedupedGrows(ns, i + 1);
      if input[i] != input[i - 1] {
        j := j + 1;
        output[j] := input[i];
        assert output[..j + 1] == output[..j] + [ns[i]];
      }
      i := i + 1;
    }
    assert ns[..i] == ns;
    assert output[..j + 1] == output[..];
  }

  lemma {:induction false} DedupedNext(ns: seq<nat>, i: nat)
    requires i < |ns|
    ensures Deduped(ns[..i + 1])
            == if i > 0 && ns[i] == ns[i - 1] then Deduped(ns[..i]) else Deduped(ns[..i]) + [ns[i]]
    ensures i == 0 ==> Deduped(ns[..i]) == []
  {
    assert ns[..i + 1][..i] == ns[..i];
  }

  lemma {:induction false} DedupedGrows(ns: seq<nat>, i: nat)
    requires i <= |ns|
    ensures |Deduped(ns[..i])| <= |Deduped(ns)|
    decreases |ns|
  {
    if i == |ns| {
      assert ns[..i] == ns;
    } else {
      assert ns[..|ns| - 1][..i] == ns[..i];
      DedupedGrows(ns[..|ns| - 1], i);
    }
  }

  /** get_sorted_and_uniqued_compatible_version_numbers */
  method CompatibleVersionNumbers(t: Ty) returns (output: array<nat>)
    requires Collect(t) != []
    ensures fresh(output) && output[..] == VersionsOf(t)
  {
    var ns := Collect(t);
    var buffer := new nat[|ns|](i requires 0 <= i < |ns| => ns[i]);
    assert buffer[..] == ns;
    CompileTimeSort(buffer);
    var size := CalculateUniquedSize(buffer);
    output := new nat[size];
    ghost var sorted := buffer[..];
    CompileTimeUnique(buffer, output);
    DedupedOfSorted(sorted);
    SortedUniqueIncreasing(ns);
    forall n ensures n in sorted <==> n in ns {
      assert n in multiset(sorted) <==> n in multiset(ns);
    }
    IncreasingUnique(output[..], VersionsOf(t));
  }
}
