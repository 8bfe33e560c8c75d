/**
 * Search highlighting (frontend/components/HighlightedTransactionRow.tsx).
 *
 * Lower-casing is a character map `fold`, so it keeps lengths and positions.
 */
module Highlight {
  import Sorting

  type Folding = char -> char

  function Lower(s: string, fold: Folding): (r: string)
    ensures |r| == |s|
    ensures forall i :: 0 <= i < |s| ==> r[i] == fold(s[i])
  {
    seq(|s|, i requires 0 <= i < |s| => fold(s[i]))
  }

  predicate OccursAt(text: string, needle: string, i: int) {
    0 <= i && i + |needle| <= |text| && text[i..i + |needle|] == needle
  }

  /** `text.toLowerCase().indexOf(h.toLowerCase())`: the first occurrence ignoring case, or -1. */
  function Find(text: string, h: string, fold: Folding): (r: int)
    ensures r != -1 ==> 0 <= r && r + |h| <= |text|
  {
    IndexFrom(Lower(text, fold), Lower(h, fold), 0)
  }

  function IndexFrom(text: string, needle: string, from: nat): (r: int)
    requires from <= |text|
    ensures r == -1 || OccursAt(text, needle, r)
    decreases |text| - from
  {
    if OccursAt(text, needle, from) then from
    else if from == |text| then -1
    else IndexFrom(text, needle, from + 1)
  }

  lemma {:induction false} IndexFromIsFirst(text: string, needle: string, from: nat)
    requires from <= |text|
    ensures var r := IndexFrom(text, needle, from);
            forall i :: from <= i && (r == -1 || i < r) ==> !OccursAt(text, needle, i)
    decreases |text| - from
  {
    if !OccursAt(text, needle, from) && from < |text| {
      IndexFromIsFirst(text, needle, from + 1);
    }
  }

  /** `Find` is the first place where the text reads like `h` ignoring case, and -1 if there is none. */
  lemma FindIsFirst(text: string, h: string, fold: Folding, i: int)
    requires 0 <= i && i + |h| <= |text|
    ensures var r := Find(text, h, fold);
            && (r != -1 ==> Lower(text[r..r + |h|], fold) == Lower(h, fold))
            && (r == -1 || i < r ==> Lower(text[i..i + |h|], fold) != Lower(h, fold))
  {
    var r := Find(text, h, fold);
    IndexFromIsFirst(Lower(text, fold), Lower(h, fold), 0);
    if r != -1 {
      assert Lower(text[r..r + |h|], fold) == Lower(text, fold)[r..r + |h|];
    }
    assert Lower(text[i..i + |h|], fold) == Lower(text, fold)[i..i + |h|];
    assert r == -1 || i < r ==> !OccursAt(Lower(text, fold), Lower(h, fold), i);
  }

  /** A rendered piece: a plain span or a <mark>, with the position it was cut from. */
  datatype Part =
    | Plain(start: nat, text: string)
    | Mark(start: nat, text: string, highlight: string)
  {
    function End(): nat {
      start + |text|
    }
  }

  datatype Position = Position(highlight: string, index: int)

  /** The parts are cut from `text` one after the other, from 0 to `to`. */
  ghost predicate Tiles(parts: seq<Part>, text: string, to: nat)
    decreases |parts|
  {
    if parts == [] then to == 0
    else
      var last := parts[|parts| - 1];
      && last.End() == to <= |text|
      && text[last.start..to] == last.text
      && Tiles(parts[..|parts| - 1], text, last.start)
  }

  function Joined(parts: seq<Part>): string {
    if parts == [] then "" else Joined(parts[..|parts| - 1]) + parts[|parts| - 1].text
  }

  lemma {:induction false} TilesJoin(parts: seq<Part>, text: string, to: nat)
    requires Tiles(parts, text, to)
    ensures Joined(parts) == text[..to]
    decreases |parts|
  {
    if parts != [] {
      var last := parts[|parts| - 1];
      TilesJoin(parts[..|parts| - 1], text, last.start);
      assert text[..to] == text[..last.start] + text[last.start..to];
    }
  }

  /** Parts never overlap and appear in text order. */
  lemma {:induction false} TilesAreOrdered(parts: seq<Part>, text: string, to: nat, i: nat, j: nat)
    requires Tiles(parts, text, to) && i < j < |parts|
    ensures parts[i].End() <= parts[j].start
    decreases |parts|
  {
    var n := |parts| - 1;
    if j < n {
      TilesAreOrdered(parts[..n], text, parts[n].start, i, j);
    } else if i < n - 1 {
      TilesAreOrdered(parts[..n], text, parts[n].start, i, n - 1);
    }
  }

  lemma TilesAppend(parts: seq<Part>, text: string, to: nat, part: Part)
    requires Tiles(parts, text, to) && part.start == to
    requires part.End() <= |text| && text[to..part.End()] == part.text
    ensures Tiles(parts + [part], text, part.End())
  {
    assert (parts + [part])[..|parts|] == parts;
  }

  /** Each part is the piece of text it claims to be. */
  lemma {:induction false} TilesPiece(parts: seq<Part>, text: string, to: nat, p: Part)
    requires Tiles(parts, text, to) && p in parts
    ensures p.End() <= |text| && text[p.start..p.End()] == p.text
    decreases |parts|
  {
    var n := |parts| - 1;
    if p != parts[n] {
      TilesPiece(parts[..n], text, parts[n].start, p);
    }
  }

  // ----- Which positions are marked -----

  /** Sorted positions inside the text; -1 stands for "not found". */
  ghost predicate Positions(ps: seq<Position>, text: string) {
    && (forall k :: 0 <= k < |ps| ==>
          ps[k].index == -1 || (0 <= ps[k].index && ps[k].index + |ps[k].highlight| <= |text|))
    && (forall j, k :: 0 <= j < k < |ps| ==> ps[j].index <= ps[k].index)
  }

  /** The k-th position is found and no earlier visible one reaches beyond its index. */
  ghost predicate Visible(ps: seq<Position>, k: nat)
    requires k < |ps|
    decreases k
  {
    && ps[k].index != -1
    && forall j: nat :: j < k && Visible(ps, j) ==> ps[j].index + |ps[j].highlight| <= ps[k].index
  }

  function MarkAt(text: string, at: Position): Part
    requires 0 <= at.index && at.index + |at.highlight| <= |text|
  {
    Mark(at.index, text[at.index..at.index + |at.highlight|], at.highlight)
  }

  /** The marks of the visible ones among the first `n` positions, in order. */
  ghost function VisibleMarks(text: string, ps: seq<Position>, n: nat): seq<Part>
    requires Positions(ps, text) && n <= |ps|
  {
    if n == 0 then []
    else VisibleMarks(text, ps, n - 1) + if Visible(ps, n - 1) then [MarkAt(text, ps[n - 1])] else []
  }

  lemma {:induction false} VisibleMarksMembers(text: string, ps: seq<Position>, n: nat, p: Part)
    requires Positions(ps, text) && n <= |ps|
    ensures p in VisibleMarks(text, ps, n)
            <==> exists k: nat :: k < n && Visible(ps, k) && p == MarkAt(text, ps[k])
  {
    if n > 0 {
      VisibleMarksMembers(text, ps, n - 1, p);
    }
  }

  function MarksIn(parts: seq<Part>): seq<Part> {
    if parts == [] then []
    else MarksIn(parts[..|parts| - 1]) + if parts[|parts| - 1].Mark? then [parts[|parts| - 1]] else []
  }

  lemma MarksAppend(parts: seq<Part>, p: Part)
    ensures MarksIn(parts + [p]) == MarksIn(parts) + if p.Mark? then [p] else []
  {
    assert (parts + [p])[..|parts|] == parts;
  }

  lemma {:induction false} MarksInMembers(parts: seq<Part>, p: Part)
    ensures p in MarksIn(parts) <==> p in parts && p.Mark?
    decreases |parts|
  {
    if parts != [] {
      var front, last := parts[..|parts| - 1], parts[|parts| - 1];
      MarksInMembers(front, p);
      assert parts == front + [last];
    }
  }

  /** Plain parts are not empty and never adjacent. */
  ghost predicate Tidy(parts: seq<Part>) {
    forall i :: 0 <= i < |parts| && parts[i].Plain? ==>
      parts[i].text != "" && (i + 1 < |parts| ==> parts[i + 1].Mark?)
  }

  lemma TidyAppend(parts: seq<Part>, p: Part)
    requires Tidy(parts) && (p.Plain? ==> p.text != "")
    requires parts != [] && parts[|parts| - 1].Plain? ==> p.Mark?
    ensures Tidy(parts + [p])
  {}

  // ----- The segmentation loop -----

  /** `lastIndex` is where the last visible mark so far ends, 0 before the first. */
  ghost predicate EndsAt(ps: seq<Position>, n: nat, lastIndex: nat)
    requires n <= |ps|
  {
    && (forall j: nat :: j < n && Visible(ps, j) ==> ps[j].index + |ps[j].highlight| <= lastIndex)
    && (lastIndex == 0 || exists j: nat :: j < n && Visible(ps, j) && ps[j].index + |ps[j].highlight| == lastIndex)
  }

  /** The loop's test decides visibility. */
  lemma TestDecidesVisible(ps: seq<Position>, text: string, n: nat, lastIndex: nat)
    requires Positions(ps, text) && n < |ps| && EndsAt(ps, n, lastIndex)
    ensures ps[n].index != -1 && ps[n].index >= lastIndex <==> Visible(ps, n)
    ensures EndsAt(ps, n + 1, if Visible(ps, n) then ps[n].index + |ps[n].highlight| else lastIndex)
  {
    var test := ps[n].index != -1 && ps[n].index >= lastIndex;
    if test {
      assert Visible(ps, n);
    } else if ps[n].index != -1 {
      var j: nat :| j < n && Visible(ps, j) && ps[j].index + |ps[j].highlight| == lastIndex;
      assert !Visible(ps, n);
    }
  }

  /** Parts that tile the text up to `to` and hold exactly these marks. */
  ghost predicate Holds(parts: seq<Part>, text: string, to: nat, marks: seq<Part>) {
    to <= |text| && Tiles(parts, text, to) && Tidy(parts) && MarksIn(parts) == marks
  }

  predicate EndsInMark(parts: seq<Part>) {
    parts != [] ==> parts[|parts| - 1].Mark?
  }

  /** The text between the last mark and `index` pushed, if there is any. */
  method PushGap(parts: seq<Part>, text: string, lastIndex: nat, index: nat, ghost marks: seq<Part>)
    returns (more: seq<Part>)
    requires lastIndex <= index <= |text| && EndsInMark(parts) && Holds(parts, text, lastIndex, marks)
    ensures Holds(more, text, index, marks)
  {
    more := parts;
    if index > lastIndex {
      var gap := Plain(lastIndex, text[lastIndex..index]);
      TilesAppend(parts, text, lastIndex, gap);
      MarksAppend(parts, gap);
      assert |gap.text| > 0;
      TidyAppend(parts, gap);
      more := more + [gap];
    }
  }

  /** The pushes for a visible position. */
  method PushMark(parts: seq<Part>, text: string, lastIndex: nat, at: Position, ghost marks: seq<Part>)
    returns (more: seq<Part>, end: nat)
    requires lastIndex <= at.index && at.index + |at.highlight| <= |text|
    requires EndsInMark(parts) && Holds(parts, text, lastIndex, marks)
    ensures end == at.index + |at.highlight|
    ensures EndsInMark(more) && Holds(more, text, end, marks + [MarkAt(text, at)])
  {
    var before := PushGap(parts, text, lastIndex, at.index, marks);
    end := at.index + |at.highlight|;
    var mark := Mark(at.index, text[at.index..end], at.highlight);
    TilesAppend(before, text, at.index, mark);
    MarksAppend(before, mark);
    TidyAppend(before, mark);
    more := before + [mark];
  }

  /** What holds after the first `n` positions: the marks are exactly those of the visible ones. */
  ghost predicate Progress(parts: seq<Part>, lastIndex: nat, text: string, ps: seq<Position>, n: nat) {
    && Positions(ps, text) && n <= |ps|
    && EndsInMark(parts) && EndsAt(ps, n, lastIndex)
    && Holds(parts, text, lastIndex, VisibleMarks(text, ps, n))
  }

  /** One turn of the loop. */
  method Visit(parts: seq<Part>, lastIndex: nat, text: string, ps: seq<Position>, n: nat)
    returns (more: seq<Part>, end: nat)
    requires Progress(parts, lastIndex, text, ps, n) && n < |ps|
    ensures Progress(more, end, text, ps, n + 1)
  {
    TestDecidesVisible(ps, text, n, lastIndex);
    if ps[n].index != -1 && ps[n].index >= lastIndex {
      more, end := PushMark(parts, text, lastIndex, ps[n], VisibleMarks(text, ps, n));
    } else {
      more, end := parts, lastIndex;
      assert VisibleMarks(text, ps, n + 1) == VisibleMarks(text, ps, n);
    }
  }

  /** The loop over the sorted positions, and the text behind the last mark. */
  method Segment(text: string, ps: seq<Position>) returns (parts: seq<Part>)
    requires Positions(ps, text)
    ensures Tiles(parts, text, |text|) && Joined(parts) == text
    ensures Tidy(parts) && MarksIn(parts) == VisibleMarks(text, ps, |ps|)
  {
    var lastIndex: nat := 0;
    parts := [];
    for n := 0 to |ps|
      invariant Progress(parts, lastIndex, text, ps, n)
    {
      parts, lastIndex := Visit(parts, lastIndex, text, ps, n);
    }
    parts := PushGap(parts, text, lastIndex, |text|, VisibleMarks(text, ps, |ps|));
    TilesJoin(parts, text, |text|);
    assert text[..|text|] == text;
  }

  // ----- What is shown -----

  /** The position is marked, or lies inside some mark. */
  ghost predicate Shown(parts: seq<Part>, at: Position) {
    exists p :: p in parts && p.Mark? &&
      ((p.start == at.index && p.highlight == at.highlight) || p.start <= at.index < p.End())
  }

  /** A found position is marked when visible, and lies inside an earlier mark otherwise. */
  lemma FoundIsShown(parts: seq<Part>, text: string, ps: seq<Position>, k: nat)
    requires Positions(ps, text) && MarksIn(parts) == VisibleMarks(text, ps, |ps|)
    requires k < |ps| && ps[k].index != -1
    ensures Shown(parts, ps[k])
  {
    var j: nat := k;
    if !Visible(ps, k) {
      j :| j < k && Visible(ps, j) && ps[j].index + |ps[j].highlight| > ps[k].index;
    }
    var mark := MarkAt(text, ps[j]);
    VisibleMarksMembers(text, ps, |ps|, mark);
    MarksInMembers(parts, mark);
  }

  // ----- The order of the positions -----

  /** Where the i-th highlight is first found. */
  function PositionOf(text: string, highlights: seq<string>, fold: Folding, i: int): Position {
    if 0 <= i < |highlights| then Position(highlights[i], Find(text, highlights[i], fold)) else Position("", 0)
  }

  function PositionsOf(text: string, highlights: seq<string>, fold: Folding, order: seq<int>): seq<Position> {
    Sorting.Map(order, (i: int) => PositionOf(text, highlights, fold, i))
  }

  /** Found earlier in the text, or at the same place and listed earlier. */
  predicate Before(text: string, highlights: seq<string>, fold: Folding, i: int, j: int) {
    var at, at' := PositionOf(text, highlights, fold, i).index, PositionOf(text, highlights, fold, j).index;
    at < at' || (at == at' && i < j)
  }

  /** `order` lists every highlight once, by place in the text and then by place in the list. */
  ghost predicate InTextOrder(order: seq<int>, text: string, highlights: seq<string>, fold: Folding) {
    && |order| == |highlights|
    && (forall i :: i in order <==> 0 <= i < |highlights|)
    && (forall k, l :: 0 <= k < l < |order| ==> Before(text, highlights, fold, order[k], order[l]))
  }

  lemma OrderHasPositions(order: seq<int>, text: string, highlights: seq<string>, fold: Folding)
    requires InTextOrder(order, text, highlights, fold)
    ensures Positions(PositionsOf(text, highlights, fold, order), text)
  {
    var ps := PositionsOf(text, highlights, fold, order);
    forall j, k | 0 <= j < k < |ps|
      ensures ps[j].index <= ps[k].index
    {
      assert Before(text, highlights, fold, order[j], order[k]);
    }
  }

  /** There is only one such order. */
  lemma {:induction false} OrderIsUnique(
      order: seq<int>, order': seq<int>, text: string, highlights: seq<string>, fold: Folding, n: nat)
    requires InTextOrder(order, text, highlights, fold) && InTextOrder(order', text, highlights, fold)
    requires n <= |highlights|
    ensures order[..n] == order'[..n]
  {
    if n > 0 {
      OrderIsUnique(order, order', text, highlights, fold, n - 1);
      var x, y := order[n - 1], order'[n - 1];
      var k := PlaceInRest(order, order', text, highlights, fold, n - 1, y);
      var l := PlaceInRest(order', order, text, highlights, fold, n - 1, x);
      assert k > n - 1 ==> Before(text, highlights, fold, x, y);
      assert l > n - 1 ==> Before(text, highlights, fold, y, x);
      assert x == y;
      assert order[..n] == order[..n - 1] + [x] && order'[..n] == order'[..n - 1] + [y];
    }
  }

  /** What comes at or after place `n` in the one comes at or after it in the other. */
  lemma PlaceInRest(
      order: seq<int>, order': seq<int>, text: string, highlights: seq<string>, fold: Folding, n: nat, y: int)
    returns (k: nat)
    requires InTextOrder(order, text, highlights, fold) && InTextOrder(order', text, highlights, fold)
    requires n < |highlights| && order[..n] == order'[..n] && y == order'[n]
    ensures n <= k < |order| && order[k] == y
  {
    assert y in order';
    assert y in order;
    k :| 0 <= k < |order| && order[k] == y;
    assert forall l :: 0 <= l < n ==> Before(text, highlights, fold, order'[l], order'[n]);
    assert forall l :: 0 <= l < n ==> order[l] == order[..n][l] == order'[..n][l] == order'[l] != y;
  }

  /** The order in which the positions are visited: the only one that is in text order. */
  ghost function TextOrder(text: string, highlights: seq<string>, fold: Folding): (order: seq<int>)
    ensures InTextOrder(order, text, highlights, fold)
  {
    var all := seq(|highlights|, i => i);
    var place := (i: int) => PositionOf(text, highlights, fold, i).index;
    SortedAllIsInTextOrder(text, highlights, fold, all, place);
    Sorting.Sort(all, place)
  }

  /** `positions.sort((a, b) => a.index - b.index)` */
  method SortedPositions(text: string, highlights: seq<string>, fold: Folding) returns (ps: seq<Position>)
    ensures ps == PositionsOf(text, highlights, fold, TextOrder(text, highlights, fold))
  {
    var positions := seq(|highlights|, i requires 0 <= i < |highlights| =>
      Position(highlights[i], Find(text, highlights[i], fold)));
    var key := (at: Position) => at.index;
    ps := Sorting.Sort(positions, key);
    ghost var all: seq<int> := seq(|highlights|, i => i);
    ghost var position := (i: int) => PositionOf(text, highlights, fold, i);
    ghost var place := (i: int) => PositionOf(text, highlights, fold, i).index;
    assert Sorting.Map(all, position) == positions;
    Sorting.SortMapped(all, position, key, place);
    SortedAllIsInTextOrder(text, highlights, fold, all, place);
    OrderIsTextOrder(Sorting.Sort(all, place), text, highlights, fold);
  }

  lemma OrderIsTextOrder(order: seq<int>, text: string, highlights: seq<string>, fold: Folding)
    requires InTextOrder(order, text, highlights, fold)
    ensures order == TextOrder(text, highlights, fold)
  {
    var order' := TextOrder(text, highlights, fold);
    OrderIsUnique(order, order', text, highlights, fold, |highlights|);
    assert order == order[..|highlights|] == order'[..|highlights|] == order';
  }

  lemma SortedAllIsInTextOrder(
      text: string, highlights: seq<string>, fold: Folding, all: seq<int>, place: int -> int)
    requires |all| == |highlights| && forall i :: 0 <= i < |all| ==> all[i] == i
    requires forall i :: place(i) == PositionOf(text, highlights, fold, i).index
    ensures InTextOrder(Sorting.Sort(all, place), text, highlights, fold)
  {
    var order := Sorting.Sort(all, place);
    SortedHasAll(all, place);
    Sorting.SortStably(all, place);
    forall k, l | 0 <= k < l < |order|
      ensures Before(text, highlights, fold, order[k], order[l])
    {
      assert place(order[k]) < place(order[l]) || (place(order[k]) == place(order[l]) && order[k] < order[l]);
    }
  }

  lemma SortedHasAll(all: seq<int>, place: int -> int)
    requires forall i :: 0 <= i < |all| ==> all[i] == i
    ensures |Sorting.Sort(all, place)| == |all|
    ensures forall i :: i in Sorting.Sort(all, place) <==> 0 <= i < |all|
  {
    Sorting.SortSorts(all, place);
    Sorting.SortMembers(all, place);
    forall i
      ensures i in all <==> 0 <= i < |all|
    {
      assert 0 <= i < |all| ==> all[i] == i;
    }
  }

  // ----- The component -----

  /** The parts tile the text, and the marks are those of the visible highlights, in text order. */
  ghost predicate Rendered(parts: seq<Part>, text: string, highlights: seq<string>, fold: Folding) {
    var ps := PositionsOf(text, highlights, fold, TextOrder(text, highlights, fold));
    Positions(ps, text) && Holds(parts, text, |text|, VisibleMarks(text, ps, |ps|))
  }

  /** A mark sits on the first case-insensitive occurrence of one of the highlights. */
  ghost predicate GoodMark(p: Part, text: string, highlights: seq<string>, fold: Folding) {
    p.Mark? ==>
      && p.highlight in highlights
      && Lower(p.text, fold) == Lower(p.highlight, fold)
      && p.start == Find(text, p.highlight, fold)
  }

  /** Each mark is that of a visible position. */
  lemma MarkHasPosition(parts: seq<Part>, text: string, ps: seq<Position>, p: Part) returns (k: nat)
    requires Positions(ps, text) && MarksIn(parts) == VisibleMarks(text, ps, |ps|) && p in parts && p.Mark?
    ensures k < |ps| && ps[k].index != -1 && p == MarkAt(text, ps[k])
  {
    MarksInMembers(parts, p);
    VisibleMarksMembers(text, ps, |ps|, p);
    k :| k < |ps| && Visible(ps, k) && p == MarkAt(text, ps[k]);
  }

  lemma RenderedMarkIsGood(parts: seq<Part>, text: string, highlights: seq<string>, fold: Folding, p: Part)
    requires Rendered(parts, text, highlights, fold) && p in parts
    ensures GoodMark(p, text, highlights, fold)
  {
    if p.Mark? {
      var order := TextOrder(text, highlights, fold);
      var ps := PositionsOf(text, highlights, fold, order);
      var k := MarkHasPosition(parts, text, ps, p);
      assert order[k] in order;
      assert ps[k] == PositionOf(text, highlights, fold, order[k]);
      FindIsFirst(text, p.highlight, fold, p.start);
    }
  }

  lemma RenderedShows(
      parts: seq<Part>, text: string, highlights: seq<string>, fold: Folding, h: string)
    requires Rendered(parts, text, highlights, fold)
    requires h in highlights && Find(text, h, fold) != -1
    ensures Shown(parts, Position(h, Find(text, h, fold)))
  {
    var order := TextOrder(text, highlights, fold);
    var i :| 0 <= i < |highlights| && highlights[i] == h;
    assert i in order;
    var k :| 0 <= k < |order| && order[k] == i;
    FoundIsShown(parts, text, PositionsOf(text, highlights, fold, order), k);
  }

  lemma RenderedIsGood(parts: seq<Part>, text: string, highlights: seq<string>, fold: Folding)
    requires Rendered(parts, text, highlights, fold)
    ensures forall p :: p in parts ==> GoodMark(p, text, highlights, fold)
    ensures forall h :: h in highlights && Find(text, h, fold) != -1 ==>
              Shown(parts, Position(h, Find(text, h, fold)))
  {
    forall p | p in parts
      ensures GoodMark(p, text, highlights, fold)
    {
      RenderedMarkIsGood(parts, text, highlights, fold, p);
    }
    forall h | h in highlights && Find(text, h, fold) != -1
      ensures Shown(parts, Position(h, Find(text, h, fold)))
    {
      RenderedShows(parts, text, highlights, fold, h);
    }
  }

  method HighlightText(text: string, highlights: seq<string>, fold: Folding) returns (parts: seq<Part>)
    // Lossless: the parts tile the text, hence join back to it.
    ensures Tiles(parts, text, |text|)
    ensures Joined(parts) == text
    // The marks are those of the visible highlights; without highlights there is one plain part.
    ensures if highlights == [] then parts == [Plain(0, text)] else Rendered(parts, text, highlights, fold)
    // Every mark is a first occurrence; there is no mark for a highlight that does not occur.
    ensures forall p :: p in parts ==> GoodMark(p, text, highlights, fold)
    // Every highlight that occurs is marked at its first occurrence or hidden by a mark over it.
    ensures forall h :: h in highlights && Find(text, h, fold) != -1 ==>
              Shown(parts, Position(h, Find(text, h, fold)))
  {
    if |highlights| == 0 {
      parts := [Plain(0, text)];
      TilesAppend([], text, 0, Plain(0, text));
    } else {
      parts := Render(text, highlights, fold);
      RenderedIsGood(parts, text, highlights, fold);
    }
    TilesJoin(parts, text, |text|);
    assert text[..|text|] == text;
  }

  /** The positions, sorted, and the loop over them. */
  method Render(text: string, highlights: seq<string>, fold: Folding) returns (parts: seq<Part>)
    ensures Rendered(parts, text, highlights, fold)
  {
    var ps := SortedPositions(text, highlights, fold);
    OrderHasPositions(TextOrder(text, highlights, fold), text, highlights, fold);
    parts := Segment(text, ps);
  }

  // ----- The output is determined -----

  /** The last mark ends where a trailing plain part starts, or at the end. */
  lemma LastMark(parts: seq<Part>, text: string, to: nat)
    requires Tiles(parts, text, to) && Tidy(parts) && parts != []
    ensures var last, marks := parts[|parts| - 1], MarksIn(parts);
            if last.Mark? then marks != [] && marks[|marks| - 1] == last
            else last.start < to && last.start == if marks == [] then 0 else marks[|marks| - 1].End()
  {
    var n := |parts| - 1;
    if parts[n].Plain? && n > 0 {
      assert parts[n - 1].Mark?;
      assert parts[..n][n - 1] == parts[n - 1];
    }
  }

  lemma TidyFront(parts: seq<Part>)
    requires Tidy(parts) && parts != []
    ensures Tidy(parts[..|parts| - 1])
  {}

  /** Without its last part, a list holds the marks before, up to where that part starts. */
  lemma FrontHolds(parts: seq<Part>, text: string, to: nat, marks: seq<Part>)
    requires Holds(parts, text, to, marks) && parts != []
    ensures var n, last := |parts| - 1, parts[|parts| - 1];
            && (last.Mark? ==> marks != [])
            && Holds(parts[..n], text, last.start, if last.Mark? then marks[..|marks| - 1] else marks)
  {
    TidyFront(parts);
    LastMark(parts, text, to);
    var n := |parts| - 1;
    assert MarksIn(parts) == MarksIn(parts[..n]) + if parts[n].Mark? then [parts[n]] else [];
  }

  lemma LastPartIsDetermined(parts: seq<Part>, parts': seq<Part>, text: string, to: nat, marks: seq<Part>)
    requires Holds(parts, text, to, marks) && Holds(parts', text, to, marks)
    ensures parts == [] <==> parts' == []
    ensures parts != [] && parts' != [] ==> parts[|parts| - 1] == parts'[|parts'| - 1]
  {
    if parts != [] {
      LastMark(parts, text, to);
    }
    if parts' != [] {
      LastMark(parts', text, to);
    }
  }

  /** Tiling, tidiness and the marks leave no choice. */
  lemma {:induction false} PartsAreDetermined(parts: seq<Part>, parts': seq<Part>, text: string, to: nat, marks: seq<Part>)
    requires Holds(parts, text, to, marks) && Holds(parts', text, to, marks)
    ensures parts == parts'
    decreases |parts|
  {
    LastPartIsDetermined(parts, parts', text, to, marks);
    if parts != [] {
      var n, n', last := |parts| - 1, |parts'| - 1, parts[|parts| - 1];
      FrontHolds(parts, text, to, marks);
      FrontHolds(parts', text, to, marks);
      PartsAreDetermined(parts[..n], parts'[..n'], text, last.start, if last.Mark? then marks[..|marks| - 1] else marks);
      assert parts == parts[..n] + [last] && parts' == parts'[..n'] + [last];
    }
  }

  /** Text and highlights determine everything that is rendered. */
  lemma RenderingIsDetermined(
      parts: seq<Part>, parts': seq<Part>, text: string, highlights: seq<string>, fold: Folding)
    requires Rendered(parts, text, highlights, fold) && Rendered(parts', text, highlights, fold)
    ensures parts == parts'
  {
    var ps := PositionsOf(text, highlights, fold, TextOrder(text, highlights, fold));
    PartsAreDetermined(parts, parts', text, |text|, VisibleMarks(text, ps, |ps|));
  }
}
