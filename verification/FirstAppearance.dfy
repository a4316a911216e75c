/**
  The order in which the items of a list first appear, as insertion-ordered dictionaries keep it.
 */
module FirstAppearance {

  /** x is somewhere in s with no y up to there. */
  ghost predicate AppearsBefore<T>(x: T, y: T, s: seq<T>) {
    exists p :: 0 <= p < |s| && s[p] == x && y !in s[..p + 1]
  }

  /** d lists what is in s, each item once, in order of first appearance. */
  ghost predicate ListsInOrder<T(!new)>(d: seq<T>, s: seq<T>) {
    && (forall x :: x in d <==> x in s)
    && forall i, j :: 0 <= i < j < |d| ==> AppearsBefore(d[i], d[j], s)
  }

  lemma ListsItself<T(!new)>(s: seq<T>)
    requires forall i, j :: 0 <= i < j < |s| ==> s[i] != s[j]
    ensures ListsInOrder(s, s)
  {
    forall i, j | 0 <= i < j < |s| ensures AppearsBefore(s[i], s[j], s) {
      assert s[j] !in s[..i + 1];
    }
  }

  lemma StillAppearsBefore<T>(x: T, y: T, s: seq<T>, z: T)
    requires AppearsBefore(x, y, s)
    ensures AppearsBefore(x, y, s + [z])
  {
    var p :| 0 <= p < |s| && s[p] == x && y !in s[..p + 1];
    assert (s + [z])[..p + 1] == s[..p + 1] && (s + [z])[p] == x;
  }

  lemma OneMoreItem<T(!new)>(d: seq<T>, s: seq<T>, z: T)
    requires ListsInOrder(d, s)
    ensures ListsInOrder(if z in d then d else d + [z], s + [z])
  {
    var e := if z in d then d else d + [z];
    forall i, j | 0 <= i < j < |e| ensures AppearsBefore(e[i], e[j], s + [z]) {
      if j < |d| {
        StillAppearsBefore(d[i], d[j], s, z);
      } else {
        assert d[i] in s;
        var p :| 0 <= p < |s| && s[p] == d[i];
        assert (s + [z])[..p + 1] == s[..p + 1] && (s + [z])[p] == d[i];
      }
    }
  }

  lemma ListedOnce<T(!new)>(d: seq<T>, s: seq<T>)
    requires ListsInOrder(d, s)
    ensures forall i, j :: 0 <= i < j < |d| ==> d[i] != d[j]
  {
    forall i, j | 0 <= i < j < |d| ensures d[i] != d[j] {
      var p :| 0 <= p < |s| && s[p] == d[i] && d[j] !in s[..p + 1];
      assert s[..p + 1][p] == s[p];
    }
  }

  /** Two items cannot each appear before the other. */
  lemma NotBothWays<T>(x: T, y: T, s: seq<T>)
    requires AppearsBefore(x, y, s)
    ensures !AppearsBefore(y, x, s)
  {
    var p :| 0 <= p < |s| && s[p] == x && y !in s[..p + 1];
    assert forall q :: 0 <= q <= p ==> s[..p + 1][q] == s[q];
    forall q | 0 <= q < |s| && s[q] == y ensures x in s[..q + 1] {
      assert s[..q + 1][p] == x;
    }
  }
}
