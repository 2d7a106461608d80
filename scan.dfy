/** The shapes shared by the sampler's loops: a scan in which each line in
    turn either yields one entry, which is pushed, or yields none; and the
    choice of the first element with a property, falling back to the first
    element. */
module Scan {
  import opened Wrappers
  import opened Strings

  /** What a scan keeps: for each line in turn, its entry if it yields one. */
  function Collect<T>(lines: seq<string>, parse: string -> Option<T>): seq<T>
    decreases |lines|
  {
    if |lines| == 0 then []
    else Collect(lines[..|lines| - 1], parse) + Entry(parse(lines[|lines| - 1]))
  }

  function Entry<T>(e: Option<T>): seq<T> {
    match e
    case Some(x) => [x]
    case None => []
  }

  lemma CollectStep<T>(lines: seq<string>, i: nat, parse: string -> Option<T>)
    requires i < |lines|
    ensures Collect(lines[..i + 1], parse) == Collect(lines[..i], parse) + Entry(parse(lines[i]))
  {
    assert lines[..i + 1][..i] == lines[..i];
  }

  /** The lines are scanned independently: the entries of two stretches of
      output are those of the first followed by those of the second. */
  lemma {:induction false} CollectAppend<T>(a: seq<string>, b: seq<string>, parse: string -> Option<T>)
    ensures Collect(a + b, parse) == Collect(a, parse) + Collect(b, parse)
    decreases |b|
  {
    if |b| == 0 {
      assert a + b == a;
    } else {
      var n := |b| - 1;
      assert (a + b)[..|a + b| - 1] == a + b[..n];
      assert (a + b)[|a + b| - 1] == b[n];
      CollectAppend(a, b[..n], parse);
    }
  }

  /** Each line yields at most one entry. */
  lemma {:induction false} CollectLength<T>(lines: seq<string>, parse: string -> Option<T>)
    ensures |Collect(lines, parse)| <= |lines|
    decreases |lines|
  {
    if |lines| > 0 {
      CollectLength(lines[..|lines| - 1], parse);
    }
  }

  /** A line that yields an entry, after lines that yielded some, adds its entry at the end. */
  lemma CollectSnoc<T>(init: seq<string>, line: string, parse: string -> Option<T>, prev: seq<T>, x: T)
    requires Collect(init, parse) == prev
    requires parse(line) == Some(x)
    ensures Collect(init + [line], parse) == prev + [x]
  {
    assert (init + [line])[..|init|] == init;
  }

  lemma LastSplit<T>(xs: seq<T>)
    requires |xs| > 0
    ensures xs[..|xs| - 1] + [xs[|xs| - 1]] == xs
  {
  }

  /** A line that yields no entry adds nothing. */
  lemma CollectNoEntry<T>(lines: seq<string>, line: string, parse: string -> Option<T>)
    requires parse(line).None?
    ensures Collect(lines + [line], parse) == Collect(lines, parse)
  {
    assert (lines + [line])[..|lines|] == lines;
  }

  /** Lines none of which yields an entry yield nothing. */
  lemma {:induction false} CollectNone<T>(lines: seq<string>, parse: string -> Option<T>)
    requires forall k :: 0 <= k < |lines| ==> parse(lines[k]).None?
    ensures Collect(lines, parse) == []
    decreases |lines|
  {
    if |lines| > 0 {
      CollectNone(lines[..|lines| - 1], parse);
    }
  }

  /** Splitting a header, lines and a final line break, and dropping the
      header, gives the lines and an empty last piece. */
  lemma AfterHeader(header: string, lines: seq<string>)
    requires '\n' !in header
    requires forall k :: 0 <= k < |lines| ==> '\n' !in lines[k]
    ensures Drop(Split(Join([header] + lines + [""], '\n'), '\n'), 1) == lines + [""]
  {
    PiecesAvoid(header, lines, '\n');
    DropFirstPiece([header] + lines + [""], '\n');
    PiecesTail(header, lines);
  }

  lemma PiecesAvoid(header: string, lines: seq<string>, sep: char)
    requires sep !in header
    requires forall k :: 0 <= k < |lines| ==> sep !in lines[k]
    ensures forall k :: 0 <= k < |[header] + lines + [""]| ==> sep !in ([header] + lines + [""])[k]
  {
    var pieces := [header] + lines + [""];
    forall k | 0 <= k < |pieces|
      ensures sep !in pieces[k]
    {
      if 0 < k <= |lines| {
        assert pieces[k] == lines[k - 1];
      }
    }
  }

  lemma PiecesTail(header: string, lines: seq<string>)
    ensures ([header] + lines + [""])[1..] == lines + [""]
  {
  }

  /** The pieces after the first come back from the joined text. */
  lemma DropFirstPiece(pieces: seq<string>, sep: char)
    requires |pieces| >= 1
    requires forall k :: 0 <= k < |pieces| ==> sep !in pieces[k]
    ensures Drop(Split(Join(pieces, sep), sep), 1) == pieces[1..]
  {
    SplitJoin(pieces, sep);
  }

  /** The position of the first element satisfying `p`, or the length when
      there is none. */
  function FirstWhere<T>(xs: seq<T>, p: T -> bool): (k: nat)
    ensures k <= |xs|
    ensures forall j :: 0 <= j < k ==> !p(xs[j])
    ensures k < |xs| ==> p(xs[k])
    decreases |xs|
  {
    if |xs| == 0 || p(xs[0]) then 0 else 1 + FirstWhere(xs[1..], p)
  }

  /** The first element satisfying `p`, otherwise the first element: how the
      reported thermal zone and the disk shown are chosen. */
  function Preferred<T>(xs: seq<T>, p: T -> bool): (r: Option<T>)
    ensures r.None? <==> |xs| == 0
    ensures r.Some? ==> r.value in xs
  {
    var k := FirstWhere(xs, p);
    if k < |xs| then Some(xs[k])
    else if |xs| > 0 then Some(xs[0])
    else None
  }

  /** There is a preferred element unless there are none; it is the first
      one satisfying `p` when one does, and the first one otherwise. */
  lemma PreferredChoice<T>(xs: seq<T>, p: T -> bool)
    ensures Preferred(xs, p).None? <==> |xs| == 0
    ensures (exists k :: 0 <= k < |xs| && p(xs[k])) ==>
              (exists k :: (0 <= k < |xs| && Preferred(xs, p) == Some(xs[k])
                && p(xs[k]) && forall j :: 0 <= j < k ==> !p(xs[j])))
    ensures (forall k :: 0 <= k < |xs| ==> !p(xs[k])) && |xs| > 0 ==> Preferred(xs, p) == Some(xs[0])
  {
    var k := FirstWhere(xs, p);
    if exists j :: 0 <= j < |xs| && p(xs[j]) {
      var j :| 0 <= j < |xs| && p(xs[j]);
      assert k <= j;
    }
  }

  /** The first position is determined by the sequence: any position with no
      match before it and a match (or the end) at it is that one. */
  lemma {:induction false} FirstWhereAt<T>(xs: seq<T>, p: T -> bool, k: nat)
    requires k <= |xs|
    requires forall j :: 0 <= j < k ==> !p(xs[j])
    requires k < |xs| ==> p(xs[k])
    ensures FirstWhere(xs, p) == k
    decreases k
  {
    if k > 0 {
      assert !p(xs[0]);
      FirstWhereAt(xs[1..], p, k - 1);
    }
  }
}
