/**
  The element-level meaning of the linked list operations: what the chain of
  node values looks like after `remove_node`, and the text `node_to_list`
  produces. The heap-based classes in module LinkedLists are proved against
  these functions.
 */
module Chain {

  /** The scanning loop of `remove_node`, started on the node that holds
      s[0]: the current node is always kept; if its successor matches `v` the
      successor is spliced out and the scan continues at the node after it,
      which is therefore never itself examined for removal. */
  function Scan<T(==)>(s: seq<T>, v: T): (r: seq<T>)
    ensures |r| <= |s|
    ensures s != [] ==> r != [] && r[0] == s[0]
    decreases |s|
  {
    if |s| < 2 then s
    else [s[0]] + (if s[1] == v then Scan(s[2..], v) else Scan(s[1..], v))
  }

  /** All of `remove_node`: the head step drops the head if it matches, then
      the scan starts at the (possibly new) head. */
  function Remove<T(==)>(s: seq<T>, v: T): (r: seq<T>)
    requires s != []
    ensures |r| <= |s|
    ensures s[0] == v ==> |r| == |Scan(s[1..], v)| < |s|
    ensures s[0] != v ==> r != [] && r[0] == s[0]
    ensures s[0] == v && |s| > 1 ==> r != [] && r[0] == s[1]
  {
    if s[0] == v then Scan(s[1..], v) else Scan(s, v)
  }

  /** An independent description of which elements survive: walking left to
      right, an element equal to `v` is dropped exactly when the element
      before it survived; the head counts as preceded by a survivor. */
  function Survivors<T(==)>(s: seq<T>, v: T, prevSurvived: bool): seq<T>
    decreases |s|
  {
    if s == [] then []
    else if s[0] == v && prevSurvived then Survivors(s[1..], v, false)
    else [s[0]] + Survivors(s[1..], v, true)
  }

  lemma {:induction false} ScanIsSurvivors<T>(s: seq<T>, v: T)
    ensures Scan(s, v) == Survivors(s, v, false)
    decreases |s|
  {
    if |s| >= 2 {
      assert s[1..][1..] == s[2..];
      ScanIsSurvivors(s[1..], v);
      if s[1] == v {
        ScanIsSurvivors(s[2..], v);
      }
    }
  }

  /** `remove_node` drops a matching node exactly when its predecessor was
      kept. */
  lemma RemoveIsSurvivors<T>(s: seq<T>, v: T)
    requires s != []
    ensures Remove(s, v) == Survivors(s, v, true)
  {
    if s[0] == v {
      ScanIsSurvivors(s[1..], v);
      assert Survivors(s[1..], v, false) == Survivors(s, v, true);
    } else {
      ScanIsSurvivors(s, v);
      if |s| >= 2 {
        assert Survivors(s, v, false) == [s[0]] + Survivors(s[1..], v, true);
      }
    }
  }

  /** One step of the scan at index i of s, which turns s into s': the
      successor of s[i] is dropped if it matches, and either way the scan
      moves on to index i + 1 of s'. */
  lemma ScanAdvance<T>(s: seq<T>, s': seq<T>, i: nat, v: T)
    requires i < |s|
    requires s' == if i + 1 < |s| && s[i + 1] == v then s[..i + 1] + s[i + 2..] else s
    ensures i + 1 <= |s'|
    ensures s[..i] + Scan(s[i..], v) == s'[..i + 1] + Scan(s'[i + 1..], v)
  {
  }

  /** The scan never removes anything when no node after the first holds `v`. */
  lemma {:induction false} ScanAbsent<T>(s: seq<T>, v: T)
    requires s == [] || v !in s[1..]
    ensures Scan(s, v) == s
    decreases |s|
  {
    if |s| >= 2 {
      assert s[1] in s[1..];
      assert s[1..][1..] == s[2..];
      ScanAbsent(s[1..], v);
      assert [s[0]] + s[1..] == s;
    }
  }

  /** The scan removes something when some node after the first holds `v`. */
  lemma {:induction false} ScanShrinks<T>(s: seq<T>, v: T)
    requires s != [] && v in s[1..]
    ensures |Scan(s, v)| < |s|
    decreases |s|
  {
    if s[1] != v {
      var k :| 1 <= k < |s| && s[k] == v;
      assert k >= 2;
      assert s[1..][k - 1] == v && k - 1 >= 1;
      assert v in s[1..][1..];
      ScanShrinks(s[1..], v);
    }
  }

  /** `remove_node` leaves the chain as it is exactly when no node holds the
      value. */
  lemma RemoveChangesIffPresent<T>(s: seq<T>, v: T)
    requires s != []
    ensures Remove(s, v) == s <==> v !in s
    ensures v in s <==> |Remove(s, v)| < |s|
  {
    if v in s {
      if s[0] != v {
        var k :| 0 <= k < |s| && s[k] == v;
        assert s[1..][k - 1] == v;
        ScanShrinks(s, v);
      }
    } else {
      assert s[0] in s;
      assert forall x :: x in s[1..] ==> x in s;
      ScanAbsent(s, v);
    }
  }

  /** `r` is `s` with some elements equal to `v` deleted, the rest kept in
      their order. */
  predicate DeletesOnly<T(==)>(s: seq<T>, r: seq<T>, v: T)
    decreases |s|
  {
    if s == [] then r == []
    else
      || (r != [] && r[0] == s[0] && DeletesOnly(s[1..], r[1..], v))
      || (s[0] == v && DeletesOnly(s[1..], r, v))
  }

  /** Only copies of `v` go: every other value occurs as often in r as in s,
      and `v` occurs |s| - |r| times fewer. */
  lemma {:induction false} DeletesOnlyCounts<T>(s: seq<T>, r: seq<T>, v: T, x: T)
    requires DeletesOnly(s, r, v)
    ensures |r| <= |s|
    ensures multiset(s)[x] == multiset(r)[x] + (if x == v then |s| - |r| else 0)
    decreases |s|
  {
    if s != [] {
      assert s == [s[0]] + s[1..];
      assert multiset(s)[x] == multiset(s[1..])[x] + (if x == s[0] then 1 else 0);
      if r != [] && r[0] == s[0] && DeletesOnly(s[1..], r[1..], v) {
        DeletesOnlyCounts(s[1..], r[1..], v, x);
        assert r == [r[0]] + r[1..];
        assert multiset(r)[x] == multiset(r[1..])[x] + (if x == r[0] then 1 else 0);
      } else {
        DeletesOnlyCounts(s[1..], r, v, x);
      }
    }
  }

  lemma {:induction false} SurvivorsDeletesOnly<T>(s: seq<T>, v: T, prevSurvived: bool)
    ensures DeletesOnly(s, Survivors(s, v, prevSurvived), v)
    decreases |s|
  {
    if s != [] {
      if s[0] == v && prevSurvived {
        SurvivorsDeletesOnly(s[1..], v, false);
      } else {
        SurvivorsDeletesOnly(s[1..], v, true);
        var r := Survivors(s, v, prevSurvived);
        assert r[1..] == Survivors(s[1..], v, true);
      }
    }
  }

  /** `remove_node` deletes only nodes holding the value and keeps the
      order of the rest; every other value keeps its number of occurrences. */
  lemma RemoveDeletesOnlyMatches<T>(s: seq<T>, v: T, x: T)
    requires s != []
    ensures DeletesOnly(s, Remove(s, v), v)
    ensures x != v ==> multiset(Remove(s, v))[x] == multiset(s)[x]
    ensures multiset(Remove(s, v))[v] == multiset(s)[v] - (|s| - |Remove(s, v)|)
  {
    RemoveIsSurvivors(s, v);
    SurvivorsDeletesOnly(s, v, true);
    DeletesOnlyCounts(s, Remove(s, v), v, x);
    DeletesOnlyCounts(s, Remove(s, v), v, v);
  }

  /** After a splice the scan moves on to the node behind the removed one, so
      that node stays even when it holds the value too. */
  lemma ScanKeepsFollower<T>(a: T, v: T, b: T, rest: seq<T>)
    ensures |Scan([a, v, b] + rest, v)| >= 2
    ensures Scan([a, v, b] + rest, v)[..2] == [a, b]
  {
  }

  /** Before the first match every element is kept and the flag turns to
      true, so the first match is dropped (unless it is s[0] and the flag
      starts false); the rest is described from a dropped predecessor. */
  lemma {:induction false} SurvivorsFirstMatch<T>(s: seq<T>, v: T, k: nat, prevSurvived: bool)
    requires k < |s| && s[k] == v && v !in s[..k]
    requires k >= 1 || prevSurvived
    ensures Survivors(s, v, prevSurvived) == s[..k] + Survivors(s[k + 1..], v, false)
    decreases k
  {
    if k >= 1 {
      assert s[0] in s[..k];
      assert s[1..][k - 1] == v;
      assert s[1..][..k - 1] == s[1..k];
      assert forall x :: x in s[1..k] ==> x in s[..k];
      SurvivorsFirstMatch(s[1..], v, k - 1, true);
      assert s[1..][k..] == s[k + 1..];
      assert [s[0]] + s[1..k] == s[..k];
    }
  }

  /** What remains of the docstring's "removes the first occurrence": the
      first node holding `v` always goes and every node before it stays;
      after it, matches go exactly when their predecessor was kept. */
  lemma RemoveDropsFirst<T>(s: seq<T>, v: T, k: nat)
    requires k < |s| && s[k] == v && v !in s[..k]
    ensures Remove(s, v) == s[..k] + Survivors(s[k + 1..], v, false)
  {
    RemoveIsSurvivors(s, v);
    SurvivorsFirstMatch(s, v, k, true);
  }

  /** Despite being described as removing the first occurrence, one call
      removes every match whose predecessor is kept, so two separated
      matches both go. */
  lemma RemoveDropsSeparatedMatches<T>(a: T, v: T, b: T)
    requires a != v && b != v
    ensures Remove([a, v, b, v], v) == [a, b]
  {
    var s := [a, v, b, v];
    assert s[2..] == [b, v] && s[2..][2..] == [];
    assert Scan([b, v], v) == [b];
    assert Scan(s, v) == [a] + Scan([b, v], v);
  }

  /** When the value occurs at most once, one call removes it. */
  lemma {:induction false} ScanRemovesLone<T>(s: seq<T>, v: T)
    requires s != [] && s[0] != v
    requires multiset(s)[v] <= 1
    ensures v !in Scan(s, v)
    decreases |s|
  {
    if |s| >= 2 {
      assert s == [s[0], s[1]] + s[2..];
      if s[1] == v {
        assert multiset(s) == multiset{s[0], s[1]} + multiset(s[2..]);
        assert v !in s[2..];
        if |s| > 2 {
          ScanAbsent(s[2..], v);
        }
      } else {
        assert s == [s[0]] + s[1..];
        assert multiset(s[1..])[v] <= multiset(s)[v];
        ScanRemovesLone(s[1..], v);
      }
    }
  }

  lemma RemoveRemovesLone<T>(s: seq<T>, v: T)
    requires s != [] && multiset(s)[v] <= 1
    ensures v !in Remove(s, v)
  {
    if s[0] == v {
      assert s == [s[0]] + s[1..];
      assert v !in s[1..];
      if |s| > 1 {
        ScanAbsent(s[1..], v);
      }
    } else {
      ScanRemovesLone(s, v);
    }
  }

  /** A second `remove_node` with the same value, after the first removed its
      only occurrence, changes nothing (the list must still be non-empty for
      the second call to be defined at all). */
  lemma RemoveIdempotentOnLone<T>(s: seq<T>, v: T)
    requires s != [] && multiset(s)[v] <= 1
    requires Remove(s, v) != []
    ensures Remove(Remove(s, v), v) == Remove(s, v)
  {
    RemoveRemovesLone(s, v);
    RemoveChangesIffPresent(Remove(s, v), v);
  }

  /** The text `node_to_list` builds: each value's text followed by " -> ",
      then "None". */
  function Render<T>(s: seq<T>, show: T -> string): (r: string)
    decreases |s|
  {
    if s == [] then "None" else show(s[0]) + " -> " + Render(s[1..], show)
  }

  /** Rendering always ends in "None"; the empty chain renders as exactly
      that. */
  lemma {:induction false} RenderEndsWithNone<T>(s: seq<T>, show: T -> string)
    ensures |Render(s, show)| >= 4
    ensures Render(s, show)[|Render(s, show)| - 4..] == "None"
    ensures s == [] <==> Render(s, show) == "None"
    decreases |s|
  {
    if s != [] {
      RenderEndsWithNone(s[1..], show);
      var tail := Render(s[1..], show);
      var r := show(s[0]) + " -> " + tail;
      assert r[|r| - 4..] == tail[|tail| - 4..];
      assert |r| > 4;
    }
  }

  /** Rendering is compositional: the text of s + t is the arrows of s
      followed by the text of t. */
  lemma {:induction false} RenderAppend<T>(s: seq<T>, t: seq<T>, show: T -> string)
    ensures Render(s + t, show) == Arrows(s, show) + Render(t, show)
    decreases |s|
  {
    if s != [] {
      assert (s + t)[1..] == s[1..] + t;
      RenderAppend(s[1..], t, show);
    } else {
      assert s + t == t;
    }
  }

  /** The " -> "-terminated part of the rendering, without "None". */
  function Arrows<T>(s: seq<T>, show: T -> string): string
    decreases |s|
  {
    if s == [] then "" else show(s[0]) + " -> " + Arrows(s[1..], show)
  }
}
