/**
  The flat container for log probabilities of vllm/logprobs.py and the plain list it stands for.
 */
module FlatLogprobsContainer {
  import opened Options
  import opened FirstAppearance

  /** Floats are reals; -inf and NaN play no part in what is stored where. */
  datatype Logprob = Logprob(logprob: real, rank: Option<int>, decodedToken: Option<string>)

  /** One row of the four columns. */
  datatype Row = Row(tokenId: int, logprob: Logprob)

  // ---------- insertion-ordered dictionaries ----------

  /** A Python dict: pairs with distinct keys, in the order of their first insertion. */
  type Dict = seq<Row>

  ghost predicate DistinctKeys(d: Dict) {
    forall i, j :: 0 <= i < j < |d| ==> d[i].tokenId != d[j].tokenId
  }

  /** d[key] = value: in place if the key is there, otherwise at the end. */
  function Put(d: Dict, row: Row): Dict {
    if d == [] then [row]
    else if d[0].tokenId == row.tokenId then [row] + d[1..]
    else [d[0]] + Put(d[1..], row)
  }

  /** The dict comprehension over the rows: the last duplicate wins. */
  function DictOf(rows: seq<Row>): Dict {
    if rows == [] then [] else Put(DictOf(rows[..|rows| - 1]), rows[|rows| - 1])
  }

  ghost predicate HasKey(d: seq<Row>, key: int) { exists i :: 0 <= i < |d| && d[i].tokenId == key }

  lemma {:induction false} PutKeys(d: Dict, row: Row)
    requires DistinctKeys(d)
    ensures DistinctKeys(Put(d, row))
    ensures forall i :: 0 <= i < |Put(d, row)| ==> Put(d, row)[i] == row || Put(d, row)[i] in d
    ensures row in Put(d, row)
    ensures forall r :: r in d && r.tokenId != row.tokenId ==> r in Put(d, row)
  {
    if d != [] && d[0].tokenId != row.tokenId {
      PutKeys(d[1..], row);
      var p := Put(d[1..], row);
      forall i | 0 <= i < |p| ensures p[i].tokenId != d[0].tokenId {
        if p[i] != row {
          var j :| 0 <= j < |d[1..]| && d[1..][j] == p[i];
          assert d[j + 1] == p[i];
        }
      }
      forall r | r in d && r.tokenId != row.tokenId ensures r in Put(d, row) {
        if r != d[0] { assert r in d[1..]; }
      }
      assert row in p;
    }
  }

  lemma DictOfStep(rows: seq<Row>, a: nat, i: nat)
    requires a <= i < |rows|
    ensures DictOf(rows[a..i + 1]) == Put(DictOf(rows[a..i]), rows[i])
  {
    assert rows[a..i + 1][..i - a] == rows[a..i];
  }

  lemma {:induction false} DictOfHasDistinctKeys(rows: seq<Row>)
    ensures DistinctKeys(DictOf(rows))
  {
    if rows != [] {
      DictOfHasDistinctKeys(rows[..|rows| - 1]);
      PutKeys(DictOf(rows[..|rows| - 1]), rows[|rows| - 1]);
    }
  }

  /** The value found under a key is that of the last row with this key. */
  lemma {:induction false} LastDuplicateWins(rows: seq<Row>, k: nat)
    requires k < |rows| && forall j :: k < j < |rows| ==> rows[j].tokenId != rows[k].tokenId
    ensures rows[k] in DictOf(rows)
  {
    var n := |rows| - 1;
    DictOfHasDistinctKeys(rows[..n]);
    PutKeys(DictOf(rows[..n]), rows[n]);
    if k < n { LastDuplicateWins(rows[..n], k); }
  }

  function Keys(rows: seq<Row>): (ks: seq<int>)
    ensures |ks| == |rows| && forall i :: 0 <= i < |rows| ==> ks[i] == rows[i].tokenId
  {
    seq(|rows|, i requires 0 <= i < |rows| => rows[i].tokenId)
  }

  lemma KeysOfCons(first: Row, rest: seq<Row>)
    ensures Keys([first] + rest) == [first.tokenId] + Keys(rest)
  {}

  lemma {:induction false} KeysAfterPut(d: Dict, row: Row)
    ensures Keys(Put(d, row)) == if row.tokenId in Keys(d) then Keys(d) else Keys(d) + [row.tokenId]
  {
    if d != [] {
      KeysOfCons(d[0], d[1..]);
      assert d == [d[0]] + d[1..];
      if d[0].tokenId == row.tokenId {
        KeysOfCons(row, d[1..]);
      } else {
        KeysAfterPut(d[1..], row);
        KeysOfCons(d[0], Put(d[1..], row));
      }
    }
  }

  lemma KeysAppended(rows: seq<Row>, row: Row)
    ensures Keys(rows + [row]) == Keys(rows) + [row.tokenId]
  {}

  /** The keys stand in the order in which they first appear in the rows. */
  lemma {:induction false} KeysInOrder(rows: seq<Row>)
    ensures ListsInOrder(Keys(DictOf(rows)), Keys(rows))
  {
    if rows != [] {
      var n := |rows| - 1;
      KeysInOrder(rows[..n]);
      KeysAfterPut(DictOf(rows[..n]), rows[n]);
      KeysAppended(rows[..n], rows[n]);
      assert rows == rows[..n] + [rows[n]];
      OneMoreItem(Keys(DictOf(rows[..n])), Keys(rows[..n]), rows[n].tokenId);
    }
  }

  lemma {:induction false} PutNew(d: Dict, row: Row)
    requires !HasKey(d, row.tokenId)
    ensures Put(d, row) == d + [row]
  {
    if d != [] {
      assert d[0].tokenId != row.tokenId;
      assert forall i :: 0 <= i < |d[1..]| ==> d[1..][i] == d[i + 1];
      PutNew(d[1..], row);
    }
  }

  /** Rows that already form a dictionary are read back unchanged. */
  lemma {:induction false} DictOfDict(d: Dict)
    requires DistinctKeys(d)
    ensures DictOf(d) == d
  {
    if d != [] {
      var n := |d| - 1;
      DictOfDict(d[..n]);
      PutNew(d[..n], d[n]);
      assert d == d[..n] + [d[n]];
    }
  }

  /** What a position given as None or as a dictionary reads as. */
  function Read(p: Option<Dict>): Dict { if p.Some? then p.value else [] }

  function ReadAll(ps: seq<Option<Dict>>): (ds: seq<Dict>)
    ensures |ds| == |ps| && forall i :: 0 <= i < |ps| ==> ds[i] == Read(ps[i])
  {
    seq(|ps|, i requires 0 <= i < |ps| => Read(ps[i]))
  }

  // ---------- ranges over columns ----------

  /** Ranges inside the first n rows, one behind the other. */
  ghost predicate InOrder(starts: seq<nat>, ends: seq<nat>, n: nat) {
    && |starts| == |ends|
    && (forall i :: 0 <= i < |starts| ==> starts[i] <= ends[i] <= n)
    && forall i, j :: 0 <= i < j < |starts| ==> ends[i] <= starts[j]
  }

  /** The ranges cover the n rows without a gap. */
  ghost predicate Tiling(starts: seq<nat>, ends: seq<nat>, n: nat) {
    && |starts| == |ends|
    && (if starts == [] then n == 0 else starts[0] == 0 && ends[|ends| - 1] == n)
    && forall i :: 0 <= i < |starts| - 1 ==> ends[i] == starts[i + 1]
  }

  function ContentsOf(rows: seq<Row>, starts: seq<nat>, ends: seq<nat>): (c: seq<Dict>)
    requires InOrder(starts, ends, |rows|)
    ensures |c| == |starts|
    ensures forall i :: 0 <= i < |c| ==> c[i] == DictOf(rows[starts[i]..ends[i]])
  {
    seq(|starts|, i requires 0 <= i < |starts| => DictOf(rows[starts[i]..ends[i]]))
  }

  lemma AppendedOrder(starts: seq<nat>, ends: seq<nat>, n: nat, m: nat)
    requires InOrder(starts, ends, n) && n <= m
    ensures InOrder(starts + [n], ends + [m], m)
    ensures Tiling(starts, ends, n) ==> Tiling(starts + [n], ends + [m], m)
  {}

  /** One more range over the new rows is one more dictionary. */
  lemma AppendRange(rows: seq<Row>, starts: seq<nat>, ends: seq<nat>, more: seq<Row>, all: seq<Row>)
    requires InOrder(starts, ends, |rows|) && all == rows + more
    requires InOrder(starts + [|rows|], ends + [|all|], |all|)
    ensures ContentsOf(all, starts + [|rows|], ends + [|all|]) == ContentsOf(rows, starts, ends) + [DictOf(more)]
  {
    var before, after := ContentsOf(rows, starts, ends), ContentsOf(all, starts + [|rows|], ends + [|all|]);
    forall i | 0 <= i < |starts| ensures after[i] == before[i] {
      assert all[starts[i]..ends[i]] == rows[starts[i]..ends[i]];
    }
    assert all[|rows|..|all|] == more;
  }

  // ---------- slices with a positive step ----------

  /** The bounds of a slice on a list of n items, as slice.indices computes them. */
  function Bound(n: nat, b: Option<int>, default: nat): nat
    requires default <= n
  {
    if b == None then default
    else if b.value < 0 then (if b.value + n < 0 then 0 else b.value + n)
    else if b.value > n then n else b.value
  }

  /**
    Position k is in front of a bound iff its index, counted from the end for a negative bound, is
    below the bound.
   */
  lemma BoundIs(n: nat, b: int, default: nat, k: nat)
    requires default <= n && k < n
    ensures Bound(n, Some(b), default) <= n && Bound(n, None, default) == default
    ensures k < Bound(n, Some(b), default) <==> if b < 0 then k - n < b else k < b
  {}

  /** s[lo:hi:step] for bounds inside the list. */
  function Pick<T>(s: seq<T>, lo: nat, hi: nat, step: nat): seq<T>
    requires step > 0 && hi <= |s|
    decreases if lo < hi then hi - lo else 0
  {
    if lo >= hi then [] else [s[lo]] + Pick(s, lo + step, hi, step)
  }

  /** lo + j * step, one step at a time. */
  function Nth(lo: nat, step: nat, j: nat): nat
    decreases j
  {
    if j == 0 then lo else Nth(lo + step, step, j - 1)
  }

  lemma {:induction false} NthIsProduct(lo: nat, step: nat, j: nat)
    ensures Nth(lo, step, j) == lo + j * step
    decreases j
  {
    if j > 0 {
      NthIsProduct(lo + step, step, j - 1);
      assert lo + step + (j - 1) * step == lo + j * step;
    }
  }

  lemma {:induction false} NthIsAtLeast(lo: nat, step: nat, j: nat)
    ensures Nth(lo, step, j) >= lo
    decreases j
  {
    if j > 0 { NthIsAtLeast(lo + step, step, j - 1); }
  }

  lemma {:induction false} NthGrows(lo: nat, step: nat, i: nat, j: nat)
    requires step > 0 && i < j
    ensures Nth(lo, step, i) < Nth(lo, step, j)
    decreases i
  {
    if i > 0 { NthGrows(lo + step, step, i - 1, j - 1); } else { NthIsAtLeast(lo + step, step, j - 1); }
  }

  lemma {:induction false} PickAt<T>(s: seq<T>, lo: nat, hi: nat, step: nat, j: nat)
    requires step > 0 && hi <= |s|
    ensures j < |Pick(s, lo, hi, step)| <==> Nth(lo, step, j) < hi
    ensures j < |Pick(s, lo, hi, step)| ==> Pick(s, lo, hi, step)[j] == s[Nth(lo, step, j)]
    decreases j
  {
    if j > 0 {
      PickAt(s, lo + step, hi, step, j - 1);
      NthIsAtLeast(lo, step, j);
    }
  }

  /** Element j of a slice is element lo + j * step of the list, as long as that is in front of hi. */
  lemma SliceElement<T>(s: seq<T>, lo: nat, hi: nat, step: nat, j: nat)
    requires step > 0 && hi <= |s|
    ensures j < |Pick(s, lo, hi, step)| <==> lo + j * step < hi
    ensures j < |Pick(s, lo, hi, step)| ==> Pick(s, lo, hi, step)[j] == s[lo + j * step]
  {
    PickAt(s, lo, hi, step, j);
    NthIsProduct(lo, step, j);
  }

  lemma {:induction false} PickLength<S, T>(s: seq<S>, t: seq<T>, lo: nat, hi: nat, step: nat)
    requires step > 0 && hi <= |s| && hi <= |t|
    ensures |Pick(s, lo, hi, step)| == |Pick(t, lo, hi, step)|
    ensures Pick(s, lo, hi, step) == [] <==> lo >= hi
    decreases if lo < hi then hi - lo else 0
  {
    if lo < hi { PickLength(s, t, lo + step, hi, step); }
  }

  function ShiftBack(s: seq<nat>, base: nat): (r: seq<nat>)
    requires forall i :: 0 <= i < |s| ==> base <= s[i]
    ensures |r| == |s| && forall i :: 0 <= i < |s| ==> r[i] == s[i] - base
  {
    seq(|s|, i requires 0 <= i < |s| => s[i] - base)
  }

  lemma PickedOrder(starts: seq<nat>, ends: seq<nat>, n: nat, lo: nat, hi: nat, step: nat)
    requires InOrder(starts, ends, n) && step > 0 && lo < hi <= |starts|
    ensures InOrder(Pick(starts, lo, hi, step), Pick(ends, lo, hi, step), n) && Pick(starts, lo, hi, step) != []
  {
    var s, e := Pick(starts, lo, hi, step), Pick(ends, lo, hi, step);
    PickLength(starts, ends, lo, hi, step);
    forall j | 0 <= j < |s| ensures s[j] <= e[j] <= n {
      PickAt(starts, lo, hi, step, j);
      PickAt(ends, lo, hi, step, j);
    }
    forall i, j | 0 <= i < j < |s| ensures e[i] <= s[j] {
      PickAt(ends, lo, hi, step, i);
      PickAt(starts, lo, hi, step, j);
      NthGrows(lo, step, i, j);
    }
  }

  /** Picking ranges is picking dictionaries. */
  lemma PickedContents(rows: seq<Row>, starts: seq<nat>, ends: seq<nat>, lo: nat, hi: nat, step: nat)
    requires InOrder(starts, ends, |rows|) && step > 0 && lo < hi <= |starts|
    requires InOrder(Pick(starts, lo, hi, step), Pick(ends, lo, hi, step), |rows|)
    ensures ContentsOf(rows, Pick(starts, lo, hi, step), Pick(ends, lo, hi, step))
         == Pick(ContentsOf(rows, starts, ends), lo, hi, step)
  {
    var all := ContentsOf(rows, starts, ends);
    var s, e, c := Pick(starts, lo, hi, step), Pick(ends, lo, hi, step), Pick(all, lo, hi, step);
    PickLength(starts, all, lo, hi, step);
    forall j | 0 <= j < |s| ensures c[j] == ContentsOf(rows, s, e)[j] {
      PickAt(starts, lo, hi, step, j);
      PickAt(ends, lo, hi, step, j);
      PickAt(all, lo, hi, step, j);
    }
  }

  lemma CutBounds(starts: seq<nat>, ends: seq<nat>, n: nat)
    requires InOrder(starts, ends, n) && starts != []
    ensures starts[0] <= ends[|ends| - 1] <= n
    ensures forall i :: 0 <= i < |starts| ==> starts[0] <= starts[i] && starts[0] <= ends[i] <= ends[|ends| - 1]
    ensures InOrder(ShiftBack(starts, starts[0]), ShiftBack(ends, starts[0]), ends[|ends| - 1] - starts[0])
  {
    var lo, hi := starts[0], ends[|ends| - 1];
    forall i | 0 <= i < |starts| ensures lo <= starts[i] && lo <= ends[i] <= hi {
      if i > 0 { assert ends[0] <= starts[i]; }
      if i < |starts| - 1 { assert ends[i] <= starts[|starts| - 1]; }
    }
  }

  lemma SliceOfSlice<T>(s: seq<T>, lo: nat, hi: nat, a: nat, b: nat)
    requires lo <= a <= b <= hi <= |s|
    ensures s[lo..hi][a - lo..b - lo] == s[a..b]
  {
    var x, y := s[lo..hi][a - lo..b - lo], s[a..b];
    assert forall i :: 0 <= i < b - a ==> x[i] == y[i];
    assert x == y;
  }

  /** Cutting the columns to the span of the ranges, and shifting the ranges, keeps the contents. */
  lemma CutColumns(rows: seq<Row>, starts: seq<nat>, ends: seq<nat>, front: seq<nat>, back: seq<nat>, lo: nat, hi: nat)
    requires InOrder(starts, ends, |rows|) && starts != [] && lo == starts[0] && hi == ends[|ends| - 1] &&
      lo <= hi <= |rows|
    requires |front| == |starts| && |back| == |ends| && InOrder(front, back, hi - lo)
    requires forall i :: 0 <= i < |starts| ==> front[i] + lo == starts[i] && back[i] + lo == ends[i]
    ensures ContentsOf(rows[lo..hi], front, back) == ContentsOf(rows, starts, ends)
  {
    var before, after := ContentsOf(rows, starts, ends), ContentsOf(rows[lo..hi], front, back);
    forall i | 0 <= i < |starts| ensures after[i] == before[i] {
      assert front[i] == starts[i] - lo && back[i] == ends[i] - lo && front[i] <= back[i] <= hi - lo;
      SliceOfSlice(rows, lo, hi, starts[i], ends[i]);
    }
    assert after == before;
  }

  lemma {:induction false} PickAll<T>(s: seq<T>, lo: nat, hi: nat)
    requires lo <= hi <= |s|
    ensures Pick(s, lo, hi, 1) == s[lo..hi]
    decreases hi - lo
  {
    if lo < hi { PickAll(s, lo + 1, hi); }
  }

  /** A step of 1 keeps the tiling; front and back are the picked ranges, shifted to start at 0. */
  lemma SliceStaysTiled(starts: seq<nat>, ends: seq<nat>, n: nat, lo: nat, hi: nat, front: seq<nat>, back: seq<nat>,
                        m: int)
    requires InOrder(starts, ends, n) && Tiling(starts, ends, n) && lo < hi <= |starts|
    requires var s, e := Pick(starts, lo, hi, 1), Pick(ends, lo, hi, 1);
             && |s| == |e| == |front| == |back| > 0 && m + s[0] == e[|e| - 1]
             && (forall i :: 0 <= i < |s| ==> front[i] + s[0] == s[i])
             && forall i :: 0 <= i < |e| ==> back[i] + s[0] == e[i]
    ensures Tiling(front, back, m)
  {
    PickAll(starts, lo, hi);
    PickAll(ends, lo, hi);
    forall i | 0 <= i < |front| - 1 ensures back[i] == front[i + 1] {
      assert ends[lo + i] == starts[lo + i + 1];
    }
  }

  // ---------- the flat container ----------

  /** IndexError: position out of range, or a slice with no position. ValueError: a step of zero. */
  datatype Result<T> = Ok(value: T) | IndexError | ValueError

  function ZipColumns(tokenIds: seq<int>, logprobs: seq<real>, ranks: seq<Option<int>>,
                      decoded: seq<Option<string>>): (rows: seq<Row>)
    requires |tokenIds| == |logprobs| == |ranks| == |decoded|
    ensures |rows| == |logprobs|
    ensures forall i :: 0 <= i < |rows| ==> rows[i] == Row(tokenIds[i], Logprob(logprobs[i], ranks[i], decoded[i]))
  {
    seq(|logprobs|, i requires 0 <= i < |logprobs| => Row(tokenIds[i], Logprob(logprobs[i], ranks[i], decoded[i])))
  }

  function Shortest(tokenIds: seq<int>, logprobs: seq<real>, ranks: seq<int>, decoded: seq<Option<string>>): (n: nat)
    ensures n <= |tokenIds| && n <= |logprobs| && n <= |ranks| && n <= |decoded|
    ensures n == |tokenIds| || n == |logprobs| || n == |ranks| || n == |decoded|
  {
    var a := if |tokenIds| < |logprobs| then |tokenIds| else |logprobs|;
    var b := if |ranks| < |decoded| then |ranks| else |decoded|;
    if a < b then a else b
  }

  /** zip(token_ids, logprobs, ranks, decoded_tokens) as rows. */
  function Zip(tokenIds: seq<int>, logprobs: seq<real>, ranks: seq<int>, decoded: seq<Option<string>>): (rows: seq<Row>)
    ensures |rows| == Shortest(tokenIds, logprobs, ranks, decoded)
    ensures forall i :: 0 <= i < |rows| ==>
      rows[i] == Row(tokenIds[i], Logprob(logprobs[i], Some(ranks[i]), decoded[i]))
  {
    seq(Shortest(tokenIds, logprobs, ranks, decoded),
        i requires 0 <= i < Shortest(tokenIds, logprobs, ranks, decoded) =>
          Row(tokenIds[i], Logprob(logprobs[i], Some(ranks[i]), decoded[i])))
  }

  class FlatLogprobs {
    var startIndices: seq<nat>
    var endIndices: seq<nat>
    var tokenIds: seq<int>
    var logprobs: seq<real>
    var ranks: seq<Option<int>>
    var decodedTokens: seq<Option<string>>

    /** Four columns of one length, and ranges inside them, one behind the other. */
    ghost predicate Valid()
      reads this
    {
      && |tokenIds| == |logprobs| == |ranks| == |decodedTokens|
      && InOrder(startIndices, endIndices, |logprobs|)
    }

    /** The ranges tile the columns in order. */
    ghost predicate Tiled()
      reads this
    {
      Tiling(startIndices, endIndices, |logprobs|)
    }

    /** The columns, zipped. */
    ghost function Rows(): (rows: seq<Row>)
      requires |tokenIds| == |logprobs| == |ranks| == |decodedTokens|
      reads this
      ensures |rows| == |logprobs|
      ensures forall i :: 0 <= i < |rows| ==>
        rows[i] == Row(tokenIds[i], Logprob(logprobs[i], ranks[i], decodedTokens[i]))
    {
      ZipColumns(tokenIds, logprobs, ranks, decodedTokens)
    }

    /** What the container stands for: a dictionary for every position. */
    ghost function Contents(): seq<Dict>
      requires Valid()
      reads this
    {
      ContentsOf(Rows(), startIndices, endIndices)
    }

    constructor ()
      ensures Valid() && Tiled() && Contents() == []
    {
      startIndices, endIndices := [], [];
      tokenIds, logprobs, ranks, decodedTokens := [], [], [], [];
    }

    constructor Columns(startIndices: seq<nat>, endIndices: seq<nat>, tokenIds: seq<int>, logprobs: seq<real>,
                        ranks: seq<Option<int>>, decodedTokens: seq<Option<string>>)
      ensures this.startIndices == startIndices && this.endIndices == endIndices && this.tokenIds == tokenIds
      ensures this.logprobs == logprobs && this.ranks == ranks && this.decodedTokens == decodedTokens
    {
      this.startIndices, this.endIndices := startIndices, endIndices;
      this.tokenIds, this.logprobs, this.ranks, this.decodedTokens := tokenIds, logprobs, ranks, decodedTokens;
    }

    ghost predicate Aligned()
      reads this
    {
      |tokenIds| == |logprobs| == |ranks| == |decodedTokens|
    }

    /** One entry at the end of each column. */
    method AppendRow(tokenId: int, logprob: real, rank: Option<int>, decodedToken: Option<string>)
      requires Aligned()
      modifies this`tokenIds, this`logprobs, this`ranks, this`decodedTokens
      ensures Aligned() && Rows() == old(Rows()) + [Row(tokenId, Logprob(logprob, rank, decodedToken))]
    {
      tokenIds := tokenIds + [tokenId];
      logprobs := logprobs + [logprob];
      ranks := ranks + [rank];
      decodedTokens := decodedTokens + [decodedToken];
    }

    method Append(position: Option<Dict>)
      requires Valid() && (position.Some? ==> DistinctKeys(position.value))
      modifies this
      ensures Valid() && Contents() == old(Contents()) + [Read(position)]
      ensures old(Tiled()) ==> Tiled()
    {
      ghost var rows, starts, ends, more := Rows(), startIndices, endIndices, Read(position);
      startIndices := startIndices + [|logprobs|];
      if position.Some? && position.value != [] {
        var items := position.value;
        for i := 0 to |items|
          invariant Aligned() && Rows() == rows + items[..i]
          invariant startIndices == starts + [|rows|] && endIndices == ends
        {
          var item := items[i];
          AppendRow(item.tokenId, item.logprob.logprob, item.logprob.rank, item.logprob.decodedToken);
        }
        assert items[..|items|] == items;
      }
      endIndices := endIndices + [|logprobs|];
      DictOfDict(more);
      AppendedOrder(starts, ends, |rows|, |logprobs|);
      AppendRange(rows, starts, ends, more, Rows());
    }

    /** zip stops at the end of the shortest of the four. */
    method AppendFast(newTokenIds: seq<int>, newLogprobs: seq<real>, newRanks: seq<int>,
                      newDecoded: seq<Option<string>>)
      requires Valid()
      modifies this
      ensures Valid() && Contents() == old(Contents()) + [DictOf(Zip(newTokenIds, newLogprobs, newRanks, newDecoded))]
      ensures old(Tiled()) ==> Tiled()
    {
      ghost var rows, starts, ends := Rows(), startIndices, endIndices;
      ghost var more := Zip(newTokenIds, newLogprobs, newRanks, newDecoded);
      startIndices := startIndices + [|logprobs|];
      var n := Shortest(newTokenIds, newLogprobs, newRanks, newDecoded);
      for i := 0 to n
        invariant Aligned() && Rows() == rows + more[..i]
        invariant startIndices == starts + [|rows|] && endIndices == ends
      {
        AppendRow(newTokenIds[i], newLogprobs[i], Some(newRanks[i]), newDecoded[i]);
      }
      assert more[..n] == more;
      endIndices := endIndices + [|logprobs|];
      AppendedOrder(starts, ends, |rows|, |logprobs|);
      AppendRange(rows, starts, ends, more, Rows());
    }

    method Extend(positions: seq<Option<Dict>>)
      requires Valid() && forall i :: 0 <= i < |positions| && positions[i].Some? ==> DistinctKeys(positions[i].value)
      modifies this
      ensures Valid() && Contents() == old(Contents()) + ReadAll(positions)
      ensures old(Tiled()) ==> Tiled()
    {
      for i := 0 to |positions|
        invariant Valid() && Contents() == old(Contents()) + ReadAll(positions[..i])
        invariant old(Tiled()) ==> Tiled()
      {
        Append(positions[i]);
        assert ReadAll(positions[..i + 1]) == ReadAll(positions[..i]) + [Read(positions[i])];
      }
      assert positions[..|positions|] == positions;
    }

    /** The dict comprehension of __getitem__ for a position; negative positions count from the end. */
    method GetItem(index: int) returns (r: Result<Dict>)
      requires Valid()
      ensures r.Ok? <==> -|startIndices| <= index < |startIndices|
      ensures r.Ok? ==> r.value == Contents()[if index < 0 then index + |startIndices| else index]
      ensures !r.ValueError?
    {
      var n := |startIndices|;
      if index < -n || index >= n { return IndexError; }
      var p := if index < 0 then index + n else index;
      var d: Dict := [];
      ghost var rows := Rows();
      for i := startIndices[p] to endIndices[p]
        invariant d == DictOf(rows[startIndices[p]..i])
      {
        DictOfStep(rows, startIndices[p], i);
        d := Put(d, Row(tokenIds[i], Logprob(logprobs[i], ranks[i], decodedTokens[i])));
      }
      r := Ok(d);
    }

    /** The first i positions of the other container, possibly this one, have been copied. */
    ghost predicate Extending(other: FlatLogprobs, mine: seq<Dict>, theirs: seq<Dict>, i: nat)
      requires i <= |theirs|
      reads this, other
    {
      && Valid() && other.Valid() && Contents() == mine + theirs[..i]
      && if other == this then mine == theirs else other.Contents() == theirs
    }

    /** One position of a flat container, possibly this one, copied to the end. */
    method AppendFrom(other: FlatLogprobs, i: nat, ghost mine: seq<Dict>, ghost theirs: seq<Dict>)
      requires i < |theirs| && Extending(other, mine, theirs, i)
      modifies this
      ensures Extending(other, mine, theirs, i + 1)
      ensures old(Tiled()) ==> Tiled()
    {
      assert i < |other.Contents()| && other.Contents()[i] == theirs[i];
      DictOfHasDistinctKeys(other.Rows()[other.startIndices[i]..other.endIndices[i]]);
      var d := other.GetItem(i);
      assert d == Ok(theirs[i]);
      Append(Some(d.value));
      assert theirs[..i + 1] == theirs[..i] + [theirs[i]];
    }

    /** Extending by a flat container, possibly itself: __iter__ fixes the number of positions first. */
    method ExtendByFlat(other: FlatLogprobs)
      requires Valid() && other.Valid()
      modifies this
      ensures Valid() && Contents() == old(Contents()) + old(other.Contents())
      ensures old(Tiled()) ==> Tiled()
    {
      var n := |other.startIndices|;
      ghost var mine, theirs := Contents(), other.Contents();
      for i := 0 to n
        invariant Extending(other, mine, theirs, i)
        invariant old(Tiled()) ==> Tiled()
      {
        AppendFrom(other, i, mine, theirs);
      }
      assert theirs[..n] == theirs;
    }

    /** A new container with the given ranges, shifted to start at 0, and the columns they span. */
    method CutTo(starts: seq<nat>, ends: seq<nat>) returns (flat: FlatLogprobs)
      requires Valid() && InOrder(starts, ends, |logprobs|) && starts != []
      ensures fresh(flat) && flat.Valid()
      ensures flat.Contents() == ContentsOf(Rows(), starts, ends)
      ensures forall i :: 0 <= i < |starts| ==> starts[0] <= starts[i] && starts[0] <= ends[i] <= ends[|ends| - 1]
      ensures flat.startIndices == ShiftBack(starts, starts[0]) && flat.endIndices == ShiftBack(ends, starts[0])
      ensures |flat.logprobs| == ends[|ends| - 1] - starts[0]
    {
      CutBounds(starts, ends, |logprobs|);
      var minIndex, maxIndex := starts[0], ends[|ends| - 1];
      flat := new FlatLogprobs.Columns(ShiftBack(starts, minIndex), ShiftBack(ends, minIndex),
                                       tokenIds[minIndex..maxIndex], logprobs[minIndex..maxIndex],
                                       ranks[minIndex..maxIndex], decodedTokens[minIndex..maxIndex]);
      assert flat.Rows() == Rows()[minIndex..maxIndex];
      CutColumns(Rows(), starts, ends, flat.startIndices, flat.endIndices, minIndex, maxIndex);
    }

    /** The cut for ranges picked with a step; a step of 1 leaves no gap between them. */
    method CutToPicked(starts: seq<nat>, ends: seq<nat>, ghost lo: nat, ghost hi: nat, ghost step: nat)
      returns (flat: FlatLogprobs)
      requires Valid() && step > 0 && lo < hi <= |startIndices|
      requires starts == Pick(startIndices, lo, hi, step) && ends == Pick(endIndices, lo, hi, step)
      ensures fresh(flat) && flat.Valid() && flat.Contents() == Pick(Contents(), lo, hi, step)
      ensures step == 1 && Tiled() ==> flat.Tiled()
    {
      PickedOrder(startIndices, endIndices, |logprobs|, lo, hi, step);
      flat := CutTo(starts, ends);
      PickedContents(Rows(), startIndices, endIndices, lo, hi, step);
      if step == 1 && Tiled() {
        SliceStaysTiled(startIndices, endIndices, |logprobs|, lo, hi, flat.startIndices, flat.endIndices,
          |flat.logprobs|);
      }
    }

    /** __getitem__ for a slice with a step of at least 1, or none. */
    method GetSlice(start: Option<int>, stop: Option<int>, step: nat) returns (r: Result<FlatLogprobs>)
      requires Valid()
      ensures r.ValueError? <==> step == 0
      ensures r.Ok? <==> step > 0 && Bound(|startIndices|, start, 0) < Bound(|startIndices|, stop, |startIndices|)
      ensures r.Ok? ==> fresh(r.value) && r.value.Valid()
      ensures r.Ok? ==>
        r.value.Contents() ==
          Pick(Contents(), Bound(|startIndices|, start, 0), Bound(|startIndices|, stop, |startIndices|), step)
      ensures r.Ok? && step == 1 && Tiled() ==> r.value.Tiled()
    {
      if step == 0 { return ValueError; }
      var n := |startIndices|;
      var lo, hi := Bound(n, start, 0), Bound(n, stop, n);
      var starts, ends := Pick(startIndices, lo, hi, step), Pick(endIndices, lo, hi, step);
      PickLength(startIndices, endIndices, lo, hi, step);
      if starts == [] { return IndexError; }
      var flat := CutToPicked(starts, ends, lo, hi, step);
      r := Ok(flat);
    }
  }

  // ---------- the two branches for the next position ----------

  /** The plain list: a list of dictionaries or None. */
  class PlainLogprobs {
    var positions: seq<Option<Dict>>

    constructor ()
      ensures positions == []
    {
      positions := [];
    }
  }

  datatype RequestLogprobs = Flat(flat: FlatLogprobs) | Plain(plain: PlainLogprobs)

  /** What either container reads as. */
  ghost function Positions(c: RequestLogprobs): seq<Dict>
    requires c.Flat? ==> c.flat.Valid()
    reads if c.Flat? then {c.flat as object} else {c.plain as object}
  {
    if c.Flat? then c.flat.Contents() else ReadAll(c.plain.positions)
  }

  function Range(n: int): (r: seq<int>)
    ensures |r| == (if n < 0 then 0 else n) && forall i :: 0 <= i < |r| ==> r[i] == i + 1
  {
    if n <= 0 then [] else seq(n, i => i + 1)
  }

  /** The ranks: that of the sampled token, then 1, 2, ... for the top ones. */
  function Ranks(rank: int, numLogprobs: int, given: nat): seq<int> {
    [rank] + Range(if numLogprobs == -1 then given else numLogprobs)
  }

  lemma RankAt(rank: int, numLogprobs: int, given: nat, j: nat)
    ensures var n := 1 + (if numLogprobs == -1 then given else if numLogprobs < 0 then 0 else numLogprobs);
            && |Ranks(rank, numLogprobs, given)| == n
            && (j < n ==> Ranks(rank, numLogprobs, given)[j] == if j == 0 then rank else j)
  {}

  /** The dict comprehension. */
  method CollectRows(rows: seq<Row>) returns (d: Dict)
    ensures d == DictOf(rows)
  {
    d := [];
    for i := 0 to |rows|
      invariant d == DictOf(rows[..i])
    {
      assert rows[..i + 1][..i] == rows[..i];
      d := Put(d, rows[i]);
    }
    assert rows[..|rows|] == rows;
  }

  /** Both branches leave their container with one more position, and the same one. */
  method AppendLogprobsForNextPosition(c: RequestLogprobs, tokenIds: seq<int>, logprobs: seq<real>,
                                       decoded: seq<Option<string>>, rank: int, numLogprobs: int)
    returns (ghost rows: seq<Row>)
    requires c.Flat? ==> c.flat.Valid()
    modifies if c.Flat? then {c.flat as object} else {c.plain as object}
    ensures c.Flat? ==> c.flat.Valid() && (old(c.flat.Tiled()) ==> c.flat.Tiled())
    ensures Positions(c) == old(Positions(c)) + [DictOf(rows)]
    ensures var n := 1 + (if numLogprobs == -1 then |logprobs| else if numLogprobs < 0 then 0 else numLogprobs);
            && |rows| <= |tokenIds| && |rows| <= |logprobs| && |rows| <= |decoded| && |rows| <= n
            && (|rows| == |tokenIds| || |rows| == |logprobs| || |rows| == |decoded| || |rows| == n)
    ensures forall j :: 0 <= j < |rows| ==>
              rows[j] == Row(tokenIds[j], Logprob(logprobs[j], Some(if j == 0 then rank else j), decoded[j]))
  {
    var ranks := Ranks(rank, numLogprobs, |logprobs|);
    rows := Zip(tokenIds, logprobs, ranks, decoded);
    forall j | 0 <= j < |rows| ensures ranks[j] == if j == 0 then rank else j {
      RankAt(rank, numLogprobs, |logprobs|, j);
    }
    match c {
      case Flat(flat) =>
        flat.AppendFast(tokenIds, logprobs, ranks, decoded);
      case Plain(plain) =>
        var d := CollectRows(Zip(tokenIds, logprobs, ranks, decoded));
        ghost var before := plain.positions;
        plain.positions := plain.positions + [Some(d)];
        assert ReadAll(plain.positions) == ReadAll(before) + [d];
    }
  }

  /** A flat container starts out, and a plain list starts out, with the position of the first token. */
  method CreatePromptLogprobs(flat: bool) returns (c: RequestLogprobs)
    ensures c.Flat? <==> flat
    ensures c.Flat? ==> fresh(c.flat) && c.flat.Valid() && c.flat.Tiled()
    ensures c.Plain? ==> fresh(c.plain)
    ensures Positions(c) == [[]]
  {
    if flat {
      var f := new FlatLogprobs();
      f.Append(None);
      c := Flat(f);
    } else {
      var p := new PlainLogprobs();
      p.positions := p.positions + [None];
      c := Plain(p);
    }
  }
}
