/**
 * The entry list of an open archive (`ShokoArchive::entries` in
 * shoko/src/archive.rs) and what the archive does with it: `retain` by
 * path, `find` by path, and the facts about blob placement that the
 * archive's invariants are made of.
 */
module Entries {
  import opened Common
  import opened Layout

  /** `entries.retain(|e| e.path != path)`: the entries with other paths, in their order. */
  function RemovePath(es: seq<Entry>, path: seq<byte>): (r: seq<Entry>)
    ensures |r| <= |es|
    ensures forall e :: e in r <==> e in es && e.path != path
  {
    if es == [] then []
    else if es[0].path == path then RemovePath(es[1..], path)
    else [es[0]] + RemovePath(es[1..], path)
  }

  /** `entries.iter().find(|e| e.path == path)`: the first entry with the path. */
  function Find(es: seq<Entry>, path: seq<byte>): (r: Option<Entry>)
    ensures r.Some? ==> r.value in es && r.value.path == path
    ensures r.None? <==> forall e <- es :: e.path != path
  {
    if es == [] then None
    else if es[0].path == path then Some(es[0])
    else Find(es[1..], path)
  }

  /** No two entries share a path. */
  predicate UniquePaths(es: seq<Entry>)
  {
    forall i, j :: 0 <= i < j < |es| ==> es[i].path != es[j].path
  }

  /** Every blob ends before the blob of any later entry starts. */
  predicate Ascending(es: seq<Entry>)
  {
    forall i, j :: 0 <= i < j < |es| ==> End(es[i]) <= es[j].offset
  }

  /** The blobs lie after the header, one after the other in entry order, without overlapping. */
  predicate Stacked(es: seq<Entry>)
  {
    Ascending(es) && forall e <- es :: |Magic| <= e.offset
  }

  /** The total stored size of the blobs. */
  function SizeSum(es: seq<Entry>): nat
  {
    if es == [] then 0 else SizeSum(es[..|es| - 1]) + es[|es| - 1].size
  }

  /** The blobs lie back to back from the end of the header, in entry order. */
  predicate Contiguous(es: seq<Entry>)
  {
    forall j :: 0 <= j < |es| ==> es[j].offset == |Magic| + SizeSum(es[..j])
  }

  /** The same paths, sizes and levels with the blobs moved back to back after the header. */
  function Packed(es: seq<Entry>): (r: seq<Entry>)
    ensures |r| == |es|
  {
    seq(|es|, j requires 0 <= j < |es| => Entry(es[j].path, es[j].size, |Magic| + SizeSum(es[..j]), es[j].clevel))
  }

  /** Removing a path shortens the list exactly when some entry has it; otherwise the list is unchanged. */
  lemma {:induction false} RemoveAbsent(es: seq<Entry>, path: seq<byte>)
    ensures |RemovePath(es, path)| == |es| <==> forall e <- es :: e.path != path
    ensures (forall e <- es :: e.path != path) ==> RemovePath(es, path) == es
  {
    if es != [] {
      RemoveAbsent(es[1..], path);
      assert es == [es[0]] + es[1..];
    }
  }

  lemma UniqueTail(es: seq<Entry>)
    requires es != [] && UniquePaths(es)
    ensures UniquePaths(es[1..]) && forall e <- es[1..] :: e.path != es[0].path
  {
    forall e <- es[1..]
      ensures e.path != es[0].path
    {
      var j :| 0 <= j < |es[1..]| && es[1..][j] == e;
      assert es[j + 1] == e;
    }
  }

  /** Under unique paths, removing the path of entry `i` removes that entry and nothing else. */
  lemma {:induction false} RemoveOne(es: seq<Entry>, path: seq<byte>, i: nat)
    requires UniquePaths(es) && i < |es| && es[i].path == path
    ensures RemovePath(es, path) == es[..i] + es[i + 1..]
  {
    var t := es[1..];
    UniqueTail(es);
    if i == 0 {
      RemoveAbsent(t, path);
    } else {
      assert es[0].path != es[i].path;
      assert RemovePath(es, path) == [es[0]] + RemovePath(t, path);
      RemoveOne(t, path, i - 1);
      assert t[..i - 1] == es[1..i] && t[i..] == es[i + 1..];
      assert es[..i] == [es[0]] + es[1..i];
    }
  }

  /** Removing a path keeps the paths unique. */
  lemma {:induction false} RemoveUnique(es: seq<Entry>, path: seq<byte>)
    requires UniquePaths(es)
    ensures UniquePaths(RemovePath(es, path))
  {
    if es != [] {
      UniqueTail(es);
      RemoveUnique(es[1..], path);
      if es[0].path != path {
        var r := RemovePath(es[1..], path);
        UniqueCons(es[0], r);
      }
    }
  }

  lemma UniqueCons(e: Entry, r: seq<Entry>)
    requires UniquePaths(r) && forall x <- r :: x.path != e.path
    ensures UniquePaths([e] + r)
  {
    var s := [e] + r;
    forall i, j | 0 <= i < j < |s|
      ensures s[i].path != s[j].path
    {
      if i == 0 {
        assert s[j] == r[j - 1] && r[j - 1] in r;
      } else {
        assert s[i] == r[i - 1] && s[j] == r[j - 1];
      }
    }
  }

  /** Appending an entry whose path no entry has keeps the paths unique. */
  lemma AppendUnique(es: seq<Entry>, x: Entry)
    requires UniquePaths(es) && forall e <- es :: e.path != x.path
    ensures UniquePaths(es + [x])
  {
    var s := es + [x];
    forall i, j | 0 <= i < j < |s|
      ensures s[i].path != s[j].path
    {
      assert s[i] == es[i] && es[i] in es;
    }
  }

  /** Under unique paths, `find` of the path of entry `i` is entry `i`. */
  lemma {:induction false} FindUnique(es: seq<Entry>, i: nat)
    requires UniquePaths(es) && i < |es|
    ensures Find(es, es[i].path) == Some(es[i])
  {
    if i > 0 {
      UniqueTail(es);
      FindUnique(es[1..], i - 1);
    }
  }

  lemma {:induction false} FindAppend(a: seq<Entry>, b: seq<Entry>, path: seq<byte>)
    ensures Find(a + b, path) == if Find(a, path).Some? then Find(a, path) else Find(b, path)
  {
    if a != [] {
      assert (a + b)[1..] == a[1..] + b;
      FindAppend(a[1..], b, path);
    } else {
      assert a + b == b;
    }
  }

  lemma {:induction false} FindRemove(es: seq<Entry>, path: seq<byte>, other: seq<byte>)
    requires other != path
    ensures Find(RemovePath(es, path), other) == Find(es, other)
  {
    if es != [] {
      FindRemove(es[1..], path, other);
    }
  }

  /**
   * After `retain` of `x.path` and `push(x)`: `find` of `x.path` gives `x`
   * and `find` of any other path gives what it gave before.
   */
  lemma FindReplaced(es: seq<Entry>, x: Entry, other: seq<byte>)
    ensures Find(RemovePath(es, x.path) + [x], x.path) == Some(x)
    ensures other != x.path ==> Find(RemovePath(es, x.path) + [x], other) == Find(es, other)
  {
    var r := RemovePath(es, x.path);
    FindAppend(r, [x], x.path);
    FindAppend(r, [x], other);
    if other != x.path {
      FindRemove(es, x.path, other);
    }
  }

  lemma StackedTail(es: seq<Entry>)
    requires es != [] && Stacked(es)
    ensures Stacked(es[1..]) && forall x <- es[1..] :: End(es[0]) <= x.offset
  {
    var t := es[1..];
    forall i, j | 0 <= i < j < |t|
      ensures End(t[i]) <= t[j].offset
    {
      assert t[i] == es[i + 1] && t[j] == es[j + 1];
    }
    forall x <- t
      ensures End(es[0]) <= x.offset
    {
      var j :| 0 <= j < |t| && t[j] == x;
      assert es[j + 1] == x;
    }
  }

  lemma StackedCons(e: Entry, r: seq<Entry>)
    requires Stacked(r) && |Magic| <= e.offset && forall x <- r :: End(e) <= x.offset
    ensures Stacked([e] + r)
  {
    var s := [e] + r;
    forall i, j | 0 <= i < j < |s|
      ensures End(s[i]) <= s[j].offset
    {
      if i == 0 {
        assert s[j] == r[j - 1] && r[j - 1] in r;
      } else {
        assert s[i] == r[i - 1] && s[j] == r[j - 1];
      }
    }
  }

  /** Removing a path keeps the blobs stacked. */
  lemma {:induction false} RemoveStacked(es: seq<Entry>, path: seq<byte>)
    requires Stacked(es)
    ensures Stacked(RemovePath(es, path))
  {
    if es != [] {
      StackedTail(es);
      RemoveStacked(es[1..], path);
      if es[0].path != path {
        StackedCons(es[0], RemovePath(es[1..], path));
      }
    }
  }

  /** A non-empty list whose every blob ends by `bound` has its next offset there or before. */
  lemma NextOffsetAtMost(es: seq<Entry>, bound: nat)
    requires es != [] && forall e <- es :: End(e) <= bound
    ensures NextOffset(es) <= bound
  {
    NextOffsetBounds(es);
  }

  /** An entry placed at or after the next offset becomes the one that ends last. */
  lemma NextOffsetAppend(es: seq<Entry>, x: Entry)
    requires es == [] || NextOffset(es) <= x.offset
    ensures NextOffset(es + [x]) == End(x)
  {
    var s := es + [x];
    NextOffsetBounds(s);
    NextOffsetBounds(es);
    assert s[|es|] == x;
    var e :| e in s && End(e) == NextOffset(s);
    if e != x {
      assert e in es;
    }
  }

  /** An entry placed at or after the next offset keeps the blobs stacked. */
  lemma AppendStacked(es: seq<Entry>, x: Entry)
    requires Stacked(es) && |Magic| <= x.offset && NextOffset(es) <= x.offset
    ensures Stacked(es + [x])
  {
    var s := es + [x];
    NextOffsetBounds(es);
    forall i, j | 0 <= i < j < |s|
      ensures End(s[i]) <= s[j].offset
    {
      assert s[i] == es[i] && es[i] in es;
    }
  }

  lemma StackedInit(es: seq<Entry>)
    requires es != [] && Stacked(es)
    ensures Stacked(es[..|es| - 1])
    ensures forall e <- es[..|es| - 1] :: End(e) <= es[|es| - 1].offset
  {
    var p := es[..|es| - 1];
    forall e <- p
      ensures End(e) <= es[|es| - 1].offset
    {
      var i :| 0 <= i < |p| && p[i] == e;
      assert es[i] == e;
    }
  }

  /** Stacked blobs fit between the header and the next offset, so their sizes add up to no more than that. */
  lemma {:induction false} StackedSizes(es: seq<Entry>)
    requires Stacked(es)
    ensures |Magic| + SizeSum(es) <= NextOffset(es)
    decreases |es|
  {
    if es != [] {
      var p, last := es[..|es| - 1], es[|es| - 1];
      StackedInit(es);
      StackedSizes(p);
      if p != [] {
        NextOffsetAtMost(p, last.offset);
      }
      assert last in es;
      NextOffsetBounds(es);
    }
  }

  lemma SizeSumPrefix(es: seq<Entry>, j: nat)
    requires j <= |es|
    ensures SizeSum(es[..j]) <= SizeSum(es)
    decreases |es|
  {
    if j < |es| {
      assert es[..|es| - 1][..j] == es[..j];
      SizeSumPrefix(es[..|es| - 1], j);
    } else {
      assert es[..j] == es;
    }
  }

  /** In a contiguous list the `j`-th blob ends where the first `j + 1` sizes add up to. */
  lemma ContiguousEnd(es: seq<Entry>, j: nat)
    requires Contiguous(es) && j < |es|
    ensures End(es[j]) == |Magic| + SizeSum(es[..j + 1])
  {
    assert es[..j + 1][..j] == es[..j];
  }

  /** Back-to-back blobs end where their sizes add up to. */
  lemma ContiguousNext(es: seq<Entry>)
    requires Contiguous(es)
    ensures NextOffset(es) == |Magic| + SizeSum(es)
  {
    if es != [] {
      var n := |es|;
      var total := |Magic| + SizeSum(es);
      forall e <- es
        ensures End(e) <= total
      {
        var j :| 0 <= j < n && es[j] == e;
        ContiguousEnd(es, j);
        SizeSumPrefix(es, j + 1);
      }
      NextOffsetAtMost(es, total);
      ContiguousEnd(es, n - 1);
      assert es[..n] == es;
      assert es[n - 1] in es;
      NextOffsetBounds(es);
    }
  }

  /** Entries with the same sizes in the same order have the same total size. */
  lemma {:induction false} SizeSumSame(a: seq<Entry>, b: seq<Entry>)
    requires |a| == |b| && forall j :: 0 <= j < |a| ==> a[j].size == b[j].size
    ensures SizeSum(a) == SizeSum(b)
    decreases |a|
  {
    if a != [] {
      SizeSumSame(a[..|a| - 1], b[..|b| - 1]);
    }
  }

  /** Packing keeps the sizes, so every prefix of the packed list has the same total size. */
  lemma PackedSums(es: seq<Entry>, j: nat)
    requires j <= |es|
    ensures SizeSum(Packed(es)[..j]) == SizeSum(es[..j])
  {
    SizeSumSame(Packed(es)[..j], es[..j]);
  }

  /** Each packed blob starts where the previous one ends, and the blobs end at the total size past the header. */
  lemma PackedContiguous(es: seq<Entry>)
    ensures Contiguous(Packed(es))
    ensures NextOffset(Packed(es)) == |Magic| + SizeSum(es)
  {
    var ps := Packed(es);
    forall j | 0 <= j < |ps|
      ensures ps[j].offset == |Magic| + SizeSum(ps[..j])
    {
      PackedSums(es, j);
    }
    ContiguousNext(ps);
    PackedSums(es, |es|);
    assert ps[..|es|] == ps && es[..|es|] == es;
  }

  /** Packed blobs are stacked. */
  lemma PackedStacked(es: seq<Entry>)
    ensures Stacked(Packed(es))
  {
    var ps := Packed(es);
    forall i, j | 0 <= i < j < |ps|
      ensures End(ps[i]) <= ps[j].offset
    {
      assert es[..j][..i + 1] == es[..i + 1];
      assert es[..i + 1][..i] == es[..i];
      SizeSumPrefix(es[..j], i + 1);
    }
  }

  /** Packing the first `n + 1` entries appends the `n`-th entry, placed at the end of the first `n`. */
  lemma PackedSnoc(es: seq<Entry>, n: nat)
    requires n < |es|
    ensures Packed(es[..n + 1]) ==
      Packed(es[..n]) + [Entry(es[n].path, es[n].size, |Magic| + SizeSum(es[..n]), es[n].clevel)]
  {
    var a, b := Packed(es[..n + 1]), Packed(es[..n]) + [Entry(es[n].path, es[n].size, |Magic| + SizeSum(es[..n]), es[n].clevel)];
    forall j | 0 <= j < n + 1
      ensures a[j] == b[j]
    {
      assert es[..n + 1][..j] == es[..j];
      if j < n {
        assert es[..n][..j] == es[..j];
      }
    }
  }

  /** Every record `retain` drops takes at least 21 bytes out of the index. */
  lemma {:induction false} RemoveIndexShorter(es: seq<Entry>, path: seq<byte>)
    ensures |IndexBytes(RemovePath(es, path))| + 21 * (|es| - |RemovePath(es, path)|) <= |IndexBytes(es)|
    decreases |es|
  {
    if es != [] {
      RemoveIndexShorter(es[1..], path);
      if es[0].path != path {
        IndexBytesCons(es[0], RemovePath(es[1..], path));
      }
    }
  }

  /** Lists with the same paths in the same order have indexes of the same length. */
  lemma {:induction false} IndexLength(a: seq<Entry>, b: seq<Entry>)
    requires |a| == |b| && forall j :: 0 <= j < |a| ==> a[j].path == b[j].path
    ensures |IndexBytes(a)| == |IndexBytes(b)|
  {
    if a != [] {
      IndexLength(a[1..], b[1..]);
    }
  }
}
