/** Unified diffs of line lists (gtest.cc): interning, hunks and the hunk loop. */
module UnifiedDiff {
  import opened Wrappers
  import opened EditDistance
  import opened DiffLines

  // ---- Interning ----

  /** Numbers for strings, the same for the same string. */
  class InternalStrings {
    var ids: map<string, nat>

    ghost predicate Valid()
      reads this
    {
      && (forall s :: s in ids ==> ids[s] < |ids|)
      && (forall s, t :: s in ids && t in ids && ids[s] == ids[t] ==> s == t)
    }

    constructor ()
      ensures Valid() && ids == map[]
    {
      ids := map[];
    }

    method GetId(s: string) returns (id: nat)
      requires Valid()
      modifies this
      ensures Valid() && s in ids && ids[s] == id
      ensures forall t :: t in old(ids) ==> t in ids && ids[t] == old(ids)[t]
    {
      if s in ids {
        return ids[s];
      }
      id := |ids|;
      ids := ids[s := id];
    }

    method GetIds(lines: seq<string>) returns (r: seq<nat>)
      requires Valid()
      modifies this
      ensures Valid() && |r| == |lines|
      ensures forall i :: 0 <= i < |lines| ==> lines[i] in ids && ids[lines[i]] == r[i]
      ensures forall t :: t in old(ids) ==> t in ids && ids[t] == old(ids)[t]
    {
      r := [];
      for k := 0 to |lines|
        invariant Valid() && |r| == k
        invariant forall i :: 0 <= i < k ==> lines[i] in ids && ids[lines[i]] == r[i]
        invariant forall t :: t in old(ids) ==> t in ids && ids[t] == old(ids)[t]
      {
        var id := GetId(lines[k]);
        r := r + [id];
      }
    }
  }

  /** The script for lines, computed on their numbers; any cost arithmetic will do. */
  method CalculateLineEdits<C>(ar: Arithmetic<C>, left: seq<string>, right: seq<string>) returns (edits: seq<Edit>)
    ensures Sound(edits, left, right)
  {
    var intern := new InternalStrings();
    var leftIds := intern.GetIds(left);
    var rightIds := intern.GetIds(right);
    edits := CalculateOptimalEdits(ar, leftIds, rightIds);
  }

  // ---- Hunks ----

  /** A printed hunk; the header names a side only when that side has changes. */
  datatype Printed = Printed(leftStart: int, leftCount: nat, rightStart: int, rightCount: nat,
                             showsLeft: bool, showsRight: bool, lines: seq<Line>)

  /** One more change among those that wait changes the runs only if it is the first. */
  lemma OneMoreChange(lines: seq<Line>, removes: seq<Line>, adds: seq<Line>,
                      removes': seq<Line>, adds': seq<Line>, tag: Tag)
    requires lines == [] || lines[|lines| - 1].tag == Common
    requires AllChanges(removes + adds) && AllChanges(removes' + adds') && removes' + adds' != [] && tag != Common
    ensures Runs(lines + removes' + adds') == NextRuns(Runs(lines + removes + adds), tag)
  {
    assert lines + removes + adds == lines + (removes + adds) && lines + removes' + adds' == lines + (removes' + adds');
    RunsOfChanges(lines, removes' + adds');
    if removes + adds == [] {
      assert lines + [] == lines;
    } else {
      RunsOfChanges(lines, removes + adds);
    }
  }

  class Hunk {
    const leftStart: int
    const rightStart: int
    var adds: nat
    var removes: nat
    var common: nat
    var hunk: seq<Line>
    var hunkAdds: seq<Line>
    var hunkRemoves: seq<Line>

    ghost function Lefts(): seq<string>
      reads this
    {
      LeftLines(hunk) + LeftLines(hunkRemoves)
    }

    ghost function Rights(): seq<string>
      reads this
    {
      RightLines(hunk) + RightLines(hunkAdds)
    }

    /** How changes and context alternate so far. */
    ghost function Shape(): (runs: seq<nat>)
      reads this
      ensures |runs| >= 1
    {
      Runs(hunk + hunkRemoves + hunkAdds)
    }

    ghost predicate Valid()
      reads this
    {
      && AllTagged(hunkRemoves, Minus) && AllTagged(hunkAdds, Plus)
      && Grouped(hunk) && (hunk == [] || hunk[|hunk| - 1].tag == Common)
      && |Lefts()| == common + removes && |Rights()| == common + adds
    }

    constructor (leftStart: int, rightStart: int)
      ensures Valid() && Lefts() == [] && Rights() == [] && adds == 0 && removes == 0 && Shape() == [0]
      ensures this.leftStart == leftStart && this.rightStart == rightStart
    {
      this.leftStart, this.rightStart := leftStart, rightStart;
      adds, removes, common := 0, 0, 0;
      hunk, hunkAdds, hunkRemoves := [], [], [];
    }

    /** The collected changes go to the end of the list, removals first. */
    method FlushEdits()
      requires AllTagged(hunkRemoves, Minus) && AllTagged(hunkAdds, Plus)
      requires Grouped(hunk) && (hunk == [] || hunk[|hunk| - 1].tag == Common)
      modifies `hunk, `hunkAdds, `hunkRemoves
      ensures hunk == old(hunk + hunkRemoves + hunkAdds) && hunkAdds == [] && hunkRemoves == []
      ensures Grouped(hunk)
      ensures LeftLines(hunk) == Lefts() == old(Lefts()) && RightLines(hunk) == Rights() == old(Rights())
    {
      hide LeftLines;
      hide RightLines;
      hide Grouped;
      hide AllTagged;
      GroupedEdits(hunk, hunkRemoves, hunkAdds);
      ShortLists(Line(Common, ""));
      LinesConcat(hunk, hunkRemoves);
      LinesConcat(hunk + hunkRemoves, hunkAdds);
      OneSided(hunkRemoves, Minus);
      OneSided(hunkAdds, Plus);
      hunk := hunk + hunkRemoves + hunkAdds;
      hunkAdds, hunkRemoves := [], [];
    }

    method PushLine(tag: Tag, text: string)
      requires Valid()
      modifies this
      ensures Valid()
      ensures Lefts() == old(Lefts()) + if tag == Plus then [] else [text]
      ensures Rights() == old(Rights()) + if tag == Minus then [] else [text]
      ensures adds == old(adds) + (if tag == Plus then 1 else 0)
      ensures removes == old(removes) + (if tag == Minus then 1 else 0)
      ensures Shape() == NextRuns(old(Shape()), tag)
    {
      hide LeftLines;
      hide RightLines;
      hide Runs;
      hide NextRuns;
      var line := Line(tag, text);
      ShortLists(line);
      match tag
      case Common =>
        common := common + 1;
        PushCommon(line);
      case Minus =>
        removes := removes + 1;
        LinesConcat(hunkRemoves, [line]);
        OneMoreChange(hunk, hunkRemoves, hunkAdds, hunkRemoves + [line], hunkAdds, tag);
        hunkRemoves := hunkRemoves + [line];
      case Plus =>
        adds := adds + 1;
        LinesConcat(hunkAdds, [line]);
        OneMoreChange(hunk, hunkRemoves, hunkAdds, hunkRemoves, hunkAdds + [line], tag);
        hunkAdds := hunkAdds + [line];
    }

    method PushCommon(line: Line)
      requires AllTagged(hunkRemoves, Minus) && AllTagged(hunkAdds, Plus) && line.tag == Common
      requires Grouped(hunk) && (hunk == [] || hunk[|hunk| - 1].tag == Common)
      modifies `hunk, `hunkAdds, `hunkRemoves
      ensures hunkAdds == [] && hunkRemoves == [] && Grouped(hunk) && hunk != [] && hunk[|hunk| - 1].tag == Common
      ensures Lefts() == old(Lefts()) + [line.text] && Rights() == old(Rights()) + [line.text]
      ensures Shape() == NextRuns(old(Shape()), Common)
    {
      hide LeftLines;
      hide RightLines;
      hide Runs;
      hide NextRuns;
      ShortLists(line);
      FlushEdits();
      LinesConcat(hunk, [line]);
      RunsSnoc(hunk, line);
      hunk := hunk + [line];
      assert hunk + [] + [] == hunk;
    }

    method Print() returns (p: Printed)
      requires Valid()
      modifies this
      ensures p.leftStart == leftStart && p.rightStart == rightStart
      ensures LeftLines(p.lines) == old(Lefts()) && RightLines(p.lines) == old(Rights()) && Grouped(p.lines)
      ensures p.leftCount == |old(Lefts())| && p.rightCount == |old(Rights())|
      ensures p.showsLeft == (old(removes) != 0) && p.showsRight == (old(adds) != 0)
      ensures Runs(p.lines) == old(Shape())
    {
      hide Runs;
      hide LeftLines;
      hide RightLines;
      var lefts, rights := removes + common, adds + common;
      FlushEdits();
      p := Printed(leftStart, lefts, rightStart, rights, removes != 0, adds != 0, hunk);
    }
  }

  // ---- Positions ----

  /** Where the left index stands before edit i. */
  function LeftAt(edits: seq<Edit>, i: nat): nat
    requires i <= |edits|
  {
    LeftUsed(edits[..i])
  }

  function RightAt(edits: seq<Edit>, i: nat): nat
    requires i <= |edits|
  {
    RightUsed(edits[..i])
  }

  ghost predicate Matches(edits: seq<Edit>, i: int, j: int) {
    0 <= i <= j <= |edits| && forall t :: i <= t < j ==> edits[t] == Match
  }

  /** Edit i moves the two indices as the loops do, inside both inputs. */
  lemma Advance(edits: seq<Edit>, left: seq<string>, right: seq<string>, i: nat)
    requires Sound(edits, left, right) && i < |edits|
    ensures LeftAt(edits, i + 1) == LeftAt(edits, i) + (if edits[i] == Add then 0 else 1) <= |left|
    ensures RightAt(edits, i + 1) == RightAt(edits, i) + (if edits[i] == Remove then 0 else 1) <= |right|
    ensures edits[i] == Match ==> left[LeftAt(edits, i)] == right[RightAt(edits, i)]
  {
    UsedStep(edits, i);
  }

  lemma Ends(edits: seq<Edit>, left: seq<string>, right: seq<string>)
    requires Sound(edits, left, right)
    ensures LeftAt(edits, 0) == 0 && RightAt(edits, 0) == 0
    ensures LeftAt(edits, |edits|) == |left| && RightAt(edits, |edits|) == |right|
  {
    assert edits[..|edits|] == edits && edits[..0] == [];
  }

  /** A run of matches is the same slice of both inputs. */
  lemma {:induction false} MatchRun(edits: seq<Edit>, left: seq<string>, right: seq<string>, i: nat, j: nat)
    requires Sound(edits, left, right) && Matches(edits, i, j)
    ensures LeftAt(edits, j) == LeftAt(edits, i) + (j - i) <= |left|
    ensures RightAt(edits, j) == RightAt(edits, i) + (j - i) <= |right|
    ensures left[LeftAt(edits, i)..LeftAt(edits, j)] == right[RightAt(edits, i)..RightAt(edits, j)]
    decreases j - i
  {
    hide Sound;
    hide LeftAt;
    hide RightAt;
    if i < j {
      MatchRun(edits, left, right, i, j - 1);
      Advance(edits, left, right, j - 1);
      var a, b, c, d := LeftAt(edits, i), LeftAt(edits, j - 1), RightAt(edits, i), RightAt(edits, j - 1);
      assert left[a..b + 1] == left[a..b] + [left[b]];
      assert right[c..d + 1] == right[c..d] + [right[d]];
    } else {
      InRange(edits, left, right, i);
    }
  }

  lemma InRange(edits: seq<Edit>, left: seq<string>, right: seq<string>, i: nat)
    requires Sound(edits, left, right) && i <= |edits|
    ensures LeftAt(edits, i) <= |left| && RightAt(edits, i) <= |right|
  {
    UsedMonotone(edits, i);
  }

  // ---- Patching ----

  /** The hunk's lines are the slices of both inputs that its starts and counts claim. */
  ghost predicate Faithful(p: Printed, left: seq<string>, right: seq<string>) {
    && 1 <= p.leftStart && p.leftStart - 1 + p.leftCount <= |left|
    && 1 <= p.rightStart && p.rightStart - 1 + p.rightCount <= |right|
    && LeftLines(p.lines) == left[p.leftStart - 1..p.leftStart - 1 + p.leftCount]
    && RightLines(p.lines) == right[p.rightStart - 1..p.rightStart - 1 + p.rightCount]
    && Grouped(p.lines) && (p.showsLeft || p.showsRight)
  }

  ghost function LeftEnd(hunks: seq<Printed>): int {
    if hunks == [] then 0 else var p := hunks[|hunks| - 1]; p.leftStart - 1 + p.leftCount
  }

  ghost function RightEnd(hunks: seq<Printed>): int {
    if hunks == [] then 0 else var p := hunks[|hunks| - 1]; p.rightStart - 1 + p.rightCount
  }

  /** Faithful hunks in increasing order that do not overlap on either side. */
  ghost predicate WellPlaced(hunks: seq<Printed>, left: seq<string>, right: seq<string>) {
    forall i :: 0 <= i < |hunks| ==>
      && Faithful(hunks[i], left, right)
      && LeftEnd(hunks[..i]) <= hunks[i].leftStart - 1
      && RightEnd(hunks[..i]) <= hunks[i].rightStart - 1
  }

  /** Copy the left lines between hunks and replace each hunk's left slice by its right lines. */
  ghost function Applied(hunks: seq<Printed>, left: seq<string>, right: seq<string>): seq<string>
    requires WellPlaced(hunks, left, right)
    decreases |hunks|
  {
    if hunks == [] then []
    else
      var n := |hunks| - 1;
      PlacedPrefix(hunks, left, right, n);
      EndNonNegative(hunks[..n], left, right);
      assert Faithful(hunks[n], left, right);
      Applied(hunks[..n], left, right) + left[LeftEnd(hunks[..n])..hunks[n].leftStart - 1] + RightLines(hunks[n].lines)
  }

  lemma PlacedPrefix(hunks: seq<Printed>, left: seq<string>, right: seq<string>, n: nat)
    requires WellPlaced(hunks, left, right) && n <= |hunks|
    ensures WellPlaced(hunks[..n], left, right)
  {
    forall i | 0 <= i < n
      ensures Faithful(hunks[..n][i], left, right)
      ensures LeftEnd(hunks[..n][..i]) <= hunks[i].leftStart - 1 && RightEnd(hunks[..n][..i]) <= hunks[i].rightStart - 1
    {
      assert hunks[..n][..i] == hunks[..i];
    }
  }

  lemma EndNonNegative(hunks: seq<Printed>, left: seq<string>, right: seq<string>)
    requires WellPlaced(hunks, left, right)
    ensures 0 <= LeftEnd(hunks) <= |left| && 0 <= RightEnd(hunks) <= |right|
  {
    if hunks != [] {
      assert Faithful(hunks[|hunks| - 1], left, right);
    }
  }

  /** What applying the diff to the left lines gives. */
  ghost function Patched(hunks: seq<Printed>, left: seq<string>, right: seq<string>): seq<string>
    requires WellPlaced(hunks, left, right)
  {
    EndNonNegative(hunks, left, right);
    Applied(hunks, left, right) + left[LeftEnd(hunks)..]
  }

  /** One more hunk after the last, with equal lines in between. */
  lemma AppendHunk(hunks: seq<Printed>, p: Printed, left: seq<string>, right: seq<string>)
    requires WellPlaced(hunks, left, right) && Faithful(p, left, right)
    requires 0 <= LeftEnd(hunks) <= p.leftStart - 1 && 0 <= RightEnd(hunks) <= p.rightStart - 1
    requires Applied(hunks, left, right) == right[..RightEnd(hunks)]
    requires left[LeftEnd(hunks)..p.leftStart - 1] == right[RightEnd(hunks)..p.rightStart - 1]
    ensures var more := hunks + [p];
            && WellPlaced(more, left, right)
            && LeftEnd(more) == p.leftStart - 1 + p.leftCount && RightEnd(more) == p.rightStart - 1 + p.rightCount
            && Applied(more, left, right) == right[..RightEnd(more)]
  {
    hide RightLines;
    hide LeftLines;
    hide WellPlaced;
    hide Applied;
    PlacedSnoc(hunks, p, left, right);
    AppliedSnoc(hunks, p, left, right);
    var a, b, c := RightEnd(hunks), p.rightStart - 1, p.rightStart - 1 + p.rightCount;
    PrefixParts(right, a, b, c);
  }

  lemma PrefixParts(s: seq<string>, a: int, b: int, c: int)
    requires 0 <= a <= b <= c <= |s|
    ensures s[..c] == s[..a] + s[a..b] + s[b..c]
  {
    assert s[..b] == s[..a] + s[a..b];
    assert s[..c] == s[..b] + s[b..c];
  }

  lemma AppliedSnoc(hunks: seq<Printed>, p: Printed, left: seq<string>, right: seq<string>)
    requires WellPlaced(hunks, left, right) && WellPlaced(hunks + [p], left, right) && Faithful(p, left, right)
    requires 0 <= LeftEnd(hunks) <= p.leftStart - 1
    ensures LeftEnd(hunks + [p]) == p.leftStart - 1 + p.leftCount
    ensures RightEnd(hunks + [p]) == p.rightStart - 1 + p.rightCount
    ensures Applied(hunks + [p], left, right) ==
            Applied(hunks, left, right) + left[LeftEnd(hunks)..p.leftStart - 1] + RightLines(p.lines)
  {
    hide RightLines;
    hide LeftLines;
    hide WellPlaced;
    var more, n := hunks + [p], |hunks|;
    assert more[..n] == hunks && more[n] == p;
  }

  lemma PlacedSnoc(hunks: seq<Printed>, p: Printed, left: seq<string>, right: seq<string>)
    requires WellPlaced(hunks, left, right) && Faithful(p, left, right)
    requires LeftEnd(hunks) <= p.leftStart - 1 && RightEnd(hunks) <= p.rightStart - 1
    ensures WellPlaced(hunks + [p], left, right)
  {
    hide Faithful;
    hide LeftEnd;
    hide RightEnd;
    var more, n := hunks + [p], |hunks|;
    forall i | 0 <= i < |more|
      ensures Faithful(more[i], left, right)
      ensures LeftEnd(more[..i]) <= more[i].leftStart - 1 && RightEnd(more[..i]) <= more[i].rightStart - 1
    {
      if i < n {
        assert more[i] == hunks[i] && more[..i] == hunks[..i];
      } else {
        assert more[..i] == hunks;
      }
    }
  }

  // ---- Patching from the text ----

  /** What is printed of a hunk: the range of each side that has changes, and the lines. */
  datatype Text = Text(left: Option<(int, nat)>, right: Option<(int, nat)>, lines: seq<Line>)

  function Shown(p: Printed): Text {
    Text(if p.showsLeft then Some((p.leftStart, p.leftCount)) else None,
         if p.showsRight then Some((p.rightStart, p.rightCount)) else None,
         p.lines)
  }

  function Texts(hunks: seq<Printed>): (texts: seq<Text>)
    ensures |texts| == |hunks| && forall i :: 0 <= i < |texts| ==> texts[i] == Shown(hunks[i])
  {
    seq(|hunks|, i requires 0 <= i < |hunks| => Shown(hunks[i]))
  }

  /** The left line a hunk starts at, from the right side if the left one is not shown. */
  function StartOf(t: Text, l: int, r: int): int {
    if t.left.Some? then t.left.value.0 - 1
    else if t.right.Some? then l + (t.right.value.0 - 1 - r)
    else l
  }

  /** Apply printed hunks to left from line l on, which is line r of the result. */
  function PatchedByText(texts: seq<Text>, left: seq<string>, l: int, r: int): seq<string>
    decreases |texts|
  {
    if texts == [] then if 0 <= l <= |left| then left[l..] else []
    else
      var lines := texts[0].lines;
      var start := StartOf(texts[0], l, r);
      if 0 <= l <= start <= |left| then
        left[l..start] + RightLines(lines) +
        PatchedByText(texts[1..], left, start + |LeftLines(lines)|, r + (start - l) + |RightLines(lines)|)
      else []
  }

  /** Between the hunks the inputs are equal. */
  ghost predicate Seamless(hunks: seq<Printed>, left: seq<string>, right: seq<string>) {
    forall i :: 0 <= i < |hunks| ==> Seam(hunks[..i], hunks[i], left, right)
  }

  ghost predicate Seam(hunks: seq<Printed>, p: Printed, left: seq<string>, right: seq<string>) {
    && 0 <= LeftEnd(hunks) <= p.leftStart - 1 <= |left| && 0 <= RightEnd(hunks) <= p.rightStart - 1 <= |right|
    && left[LeftEnd(hunks)..p.leftStart - 1] == right[RightEnd(hunks)..p.rightStart - 1]
  }

  lemma SeamlessSnoc(hunks: seq<Printed>, p: Printed, left: seq<string>, right: seq<string>)
    requires Seamless(hunks, left, right) && Faithful(p, left, right)
    requires 0 <= LeftEnd(hunks) <= p.leftStart - 1 && 0 <= RightEnd(hunks) <= p.rightStart - 1
    requires left[LeftEnd(hunks)..p.leftStart - 1] == right[RightEnd(hunks)..p.rightStart - 1]
    ensures Seamless(hunks + [p], left, right)
  {
    hide LeftEnd;
    hide RightEnd;
    hide LeftLines;
    hide RightLines;
    var more := hunks + [p];
    assert Seam(hunks, p, left, right);
    hide Seam;
    forall i | 0 <= i < |more|
      ensures Seam(more[..i], more[i], left, right)
    {
      assert more[..i] == hunks[..i];
    }
  }

  /** A range that is not shown follows from the other one, since both sides advance alike between hunks. */
  lemma StartFromText(hunks: seq<Printed>, p: Printed, left: seq<string>, right: seq<string>)
    requires Seam(hunks, p, left, right) && Faithful(p, left, right)
    ensures StartOf(Shown(p), LeftEnd(hunks), RightEnd(hunks)) == p.leftStart - 1
    ensures p.leftCount == |LeftLines(p.lines)| && p.rightCount == |RightLines(p.lines)|
    ensures p.rightStart - 1 == RightEnd(hunks) + (p.leftStart - 1 - LeftEnd(hunks))
  {
    hide LeftLines;
    hide RightLines;
    hide LeftEnd;
    hide RightEnd;
    assert |left[LeftEnd(hunks)..p.leftStart - 1]| == |right[RightEnd(hunks)..p.rightStart - 1]|;
  }

  /** So the text alone turns left into right. */
  lemma TextSuffices(hunks: seq<Printed>, left: seq<string>, right: seq<string>)
    requires WellPlaced(hunks, left, right) && Seamless(hunks, left, right)
    requires 0 <= LeftEnd(hunks) <= |left| && 0 <= RightEnd(hunks) <= |right|
    requires left[LeftEnd(hunks)..] == right[RightEnd(hunks)..]
    ensures PatchedByText(Texts(hunks), left, 0, 0) == right
  {
    assert hunks[..0] == [] && Texts(hunks)[0..] == Texts(hunks);
    TextSufficesFrom(hunks, left, right, 0);
  }

  lemma {:induction false} TextSufficesFrom(hunks: seq<Printed>, left: seq<string>, right: seq<string>, k: nat)
    requires k <= |hunks| && WellPlaced(hunks, left, right) && Seamless(hunks, left, right)
    requires 0 <= LeftEnd(hunks) <= |left| && 0 <= RightEnd(hunks) <= |right|
    requires left[LeftEnd(hunks)..] == right[RightEnd(hunks)..]
    ensures 0 <= LeftEnd(hunks[..k]) && 0 <= RightEnd(hunks[..k]) <= |right|
    ensures PatchedByText(Texts(hunks)[k..], left, LeftEnd(hunks[..k]), RightEnd(hunks[..k]))
         == right[RightEnd(hunks[..k])..]
    decreases |hunks| - k
  {
    hide WellPlaced;
    hide Seamless;
    hide LeftEnd;
    hide RightEnd;
    if k == |hunks| {
      assert hunks[..k] == hunks;
    } else {
      TextSufficesFrom(hunks, left, right, k + 1);
      StepOfText(hunks, left, right, k);
    }
  }

  lemma StepOfText(hunks: seq<Printed>, left: seq<string>, right: seq<string>, k: nat)
    requires k < |hunks| && WellPlaced(hunks, left, right) && Seamless(hunks, left, right)
    requires 0 <= RightEnd(hunks[..k + 1]) <= |right|
    requires PatchedByText(Texts(hunks)[k + 1..], left, LeftEnd(hunks[..k + 1]), RightEnd(hunks[..k + 1]))
          == right[RightEnd(hunks[..k + 1])..]
    ensures 0 <= LeftEnd(hunks[..k]) && 0 <= RightEnd(hunks[..k]) <= |right|
    ensures PatchedByText(Texts(hunks)[k..], left, LeftEnd(hunks[..k]), RightEnd(hunks[..k]))
         == right[RightEnd(hunks[..k])..]
  {
    hide LeftLines;
    hide RightLines;
    hide Texts;
    hide PatchedByText;
    EndOfPrefix(hunks, k);
    assert Seam(hunks[..k], hunks[k], left, right) && Faithful(hunks[k], left, right);
    hide WellPlaced;
    hide Seamless;
    hide Faithful;
    var texts := Texts(hunks)[k..];
    assert texts[0] == Shown(hunks[k]) && texts[1..] == Texts(hunks)[k + 1..];
    OneText(hunks[..k], hunks[k], texts, left, right);
  }

  lemma OneText(before: seq<Printed>, p: Printed, texts: seq<Text>, left: seq<string>, right: seq<string>)
    requires Seam(before, p, left, right) && Faithful(p, left, right) && texts != [] && texts[0] == Shown(p)
    requires PatchedByText(texts[1..], left, p.leftStart - 1 + p.leftCount, p.rightStart - 1 + p.rightCount)
          == right[p.rightStart - 1 + p.rightCount..]
    ensures PatchedByText(texts, left, LeftEnd(before), RightEnd(before)) == right[RightEnd(before)..]
  {
    hide PatchedByText;
    hide Grouped;
    hide LeftLines;
    hide RightLines;
    hide LeftEnd;
    hide RightEnd;
    StartFromText(before, p, left, right);
    assert texts[0].lines == p.lines;
    hide Shown;
    hide StartOf;
    var l, r, start := LeftEnd(before), RightEnd(before), p.leftStart - 1;
    var a, c := p.rightStart - 1, p.rightStart - 1 + p.rightCount;
    assert left[l..start] == right[r..a] && RightLines(p.lines) == right[a..c];
    assert r + (start - l) + |RightLines(p.lines)| == c && start + |LeftLines(p.lines)| == start + p.leftCount;
    hide Faithful;
    hide Seam;
    ThreeParts(right, r, a, c);
    FirstText(texts, left, l, r, start);
  }

  lemma FirstText(texts: seq<Text>, left: seq<string>, l: int, r: int, start: int)
    requires texts != [] && start == StartOf(texts[0], l, r) && 0 <= l <= start <= |left|
    ensures var lines := texts[0].lines;
            PatchedByText(texts, left, l, r) ==
            left[l..start] + RightLines(lines) +
            PatchedByText(texts[1..], left, start + |LeftLines(lines)|, r + (start - l) + |RightLines(lines)|)
  {
    hide StartOf;
    hide LeftLines;
    hide RightLines;
  }

  lemma ThreeParts(s: seq<string>, a: int, b: int, c: int)
    requires 0 <= a <= b <= c <= |s|
    ensures s[a..] == s[a..b] + s[b..c] + s[c..]
  {
  }

  lemma EndOfPrefix(hunks: seq<Printed>, k: nat)
    requires k < |hunks|
    ensures LeftEnd(hunks[..k + 1]) == hunks[k].leftStart - 1 + hunks[k].leftCount
    ensures RightEnd(hunks[..k + 1]) == hunks[k].rightStart - 1 + hunks[k].rightCount
  {
  }

  // ---- The loops ----

  /** The first edit from i on that is not a match. */
  method SkipMatches(edits: seq<Edit>, i: nat) returns (j: nat)
    requires i <= |edits|
    ensures Matches(edits, i, j) && (j < |edits| ==> edits[j] != Match)
  {
    j := i;
    while j < |edits| && edits[j] == Match
      invariant Matches(edits, i, j)
    {
      j := j + 1;
    }
  }

  function Min(a: int, b: int): int {
    if a <= b then a else b
  }

  /** Push the context lines before the first edit. */
  method PushPrefix(h: Hunk, left: seq<string>, l: nat, n: nat)
    requires h.Valid() && h.Lefts() == [] && h.Rights() == [] && h.adds == 0 && h.removes == 0 && h.Shape() == [0]
    requires n <= l <= |left|
    modifies h
    ensures h.Valid() && h.adds == 0 && h.removes == 0 && h.Shape() == [n]
    ensures h.Lefts() == left[l - n..l] && h.Rights() == left[l - n..l]
  {
    hide LeftLines;
    hide RightLines;
    hide Runs;
    var i := n;
    while i > 0
      invariant 0 <= i <= n && h.Valid() && h.adds == 0 && h.removes == 0 && h.Shape() == [n - i]
      invariant h.Lefts() == left[l - n..l - i] && h.Rights() == left[l - n..l - i]
    {
      h.PushLine(Common, left[l - i]);
      assert left[l - n..l - i + 1] == left[l - n..l - i] + [left[l - i]];
      i := i - 1;
    }
  }

  /** Push the lines of one edit. */
  method PushEdit(h: Hunk, edit: Edit, left: seq<string>, right: seq<string>, l: nat, r: nat, ghost a: nat,
                  ghost b: nat)
    requires h.Valid() && a <= l <= |left| && b <= r <= |right|
    requires h.Lefts() == left[a..l] && h.Rights() == right[b..r]
    requires edit != Add ==> l < |left|
    requires edit != Remove ==> r < |right|
    requires edit == Match ==> left[l] == right[r]
    modifies h
    ensures h.Valid()
    ensures h.Lefts() == left[a..if edit == Add then l else l + 1]
    ensures h.Rights() == right[b..if edit == Remove then r else r + 1]
    ensures h.adds + h.removes >= old(h.adds + h.removes) + if edit == Match then 0 else 1
    ensures h.Shape() == NextRuns(old(h.Shape()), if edit == Match then Common else Minus)
  {
    hide LeftLines;
    hide RightLines;
    hide Runs;
    if edit == Match || edit == Remove || edit == Replace {
      h.PushLine(if edit == Match then Common else Minus, left[l]);
      assert left[a..l + 1] == left[a..l] + [left[l]];
    }
    if edit == Add || edit == Replace {
      h.PushLine(Plus, right[r]);
    }
    assert edit != Remove ==> right[b..r + 1] == right[b..r] + [right[r]];
  }

  /** The runs of a hunk under way: inside only short ones, and last the matches counted so far. */
  ghost predicate Alternates(runs: seq<nat>, lead: nat, suffix: nat, context: nat, first: bool) {
    && |runs| >= 1 && runs[0] == lead && (first <==> |runs| == 1) && (first ==> suffix == 0)
    && (!first ==> runs[|runs| - 1] == suffix) && (context > 0 ==> InnerBelow(runs, 2 * context))
  }

  /** The next change is near enough to go on to it. */
  ghost predicate NextEdit(edits: seq<Edit>, e: nat, next: nat, suffix: nat, context: nat) {
    Matches(edits, e, next) && next < |edits| && edits[next] != Match && suffix + (next - e) < 2 * context
  }

  /** A finished hunk: its leading context, short runs inside, and full trailing context unless at the end. */
  ghost predicate Surrounded(runs: seq<nat>, lead: nat, context: nat, atEnd: bool) {
    && |runs| >= 2 && runs[0] == lead && InnerBelow(runs, 2 * context)
    && runs[|runs| - 1] <= context && (runs[|runs| - 1] == context || atEnd)
  }

  lemma AlternatesStep(runs: seq<nat>, lead: nat, suffix: nat, context: nat, first: bool,
                       edit: Edit, edits: seq<Edit>, e: nat, next: nat)
    requires Alternates(runs, lead, suffix, context, first) && e < |edits| && edit == edits[e] && context > 0
    requires first ==> edit != Match
    requires suffix < context || NextEdit(edits, e, next, suffix, context)
    ensures Alternates(NextRuns(runs, if edit == Match then Common else Minus), lead,
                       if edit == Match then suffix + 1 else 0, context, false)
    ensures edit == Match && suffix >= context ==> NextEdit(edits, e + 1, next, suffix + 1, context)
  {
    if edit != Match && suffix >= context {
      assert next == e;
    }
  }

  /** The edits of one hunk, until enough matches follow or the script ends. */
  method FillHunk(h: Hunk, edits: seq<Edit>, left: seq<string>, right: seq<string>, context: nat,
                  e0: nat, l0: nat, r0: nat, ghost a: nat, ghost b: nat)
    returns (e: nat, l: nat, r: nat)
    requires Sound(edits, left, right) && e0 <= |edits| && l0 == LeftAt(edits, e0) && r0 == RightAt(edits, e0)
    requires h.Valid() && a <= l0 <= |left| && b <= r0 <= |right|
    requires h.Lefts() == left[a..l0] && h.Rights() == right[b..r0]
    requires h.adds == 0 && h.removes == 0 && |h.Shape()| == 1
    requires e0 < |edits| ==> edits[e0] != Match
    modifies h
    ensures e0 <= e <= |edits| && l == LeftAt(edits, e) && r == RightAt(edits, e) && l <= |left| && r <= |right|
    ensures a <= l && b <= r && h.Valid() && h.Lefts() == left[a..l] && h.Rights() == right[b..r]
    ensures h.adds + h.removes > 0 <==> e0 < |edits| && context > 0
    ensures e == |edits| || context == 0 || (l >= context && Matches(edits, e, Min(e + context, |edits|)))
    ensures e0 < |edits| && context > 0 ==> Surrounded(h.Shape(), old(h.Shape())[0], context, e == |edits|)
  {
    hide Sound;
    hide LeftAt;
    hide RightAt;
    hide Hunk.Valid;
    hide LeftLines;
    hide RightLines;
    hide Hunk.Shape;
    hide Hunk.Lefts;
    hide Hunk.Rights;
    hide NextRuns;
    e, l, r := e0, l0, r0;
    var suffix := 0;
    ghost var next := 0;
    ghost var lead := h.Shape()[0];
    while e < |edits|
      invariant Alternates(h.Shape(), lead, suffix, context, e == e0)
      invariant suffix <= context || NextEdit(edits, e, next, suffix, context)
      invariant e0 <= e <= |edits| && l == LeftAt(edits, e) && r == RightAt(edits, e)
      invariant a <= l <= |left| && b <= r <= |right|
      invariant h.Valid() && h.Lefts() == left[a..l] && h.Rights() == right[b..r]
      invariant suffix <= e && suffix <= l
      invariant h.adds + h.removes > 0 <==> e0 < e
      invariant e0 == e ==> suffix == 0
      invariant context == 0 ==> e == e0
    {
      if suffix >= context {
        var it := SkipMatches(edits, e);
        if it == |edits| || it - e >= context {
          return;
        }
        next := it;
      }
      var edit := edits[e];
      AlternatesStep(h.Shape(), lead, suffix, context, e == e0, edit, edits, e, next);
      suffix := if edit == Match then suffix + 1 else 0;
      Advance(edits, left, right, e);
      PushEdit(h, edit, left, right, l, r, a, b);
      l := if edit == Add then l else l + 1;
      r := if edit == Remove then r else r + 1;
      e := e + 1;
    }
  }

  /** One round of the outer loop: skip matches, then print the next hunk if there is one. */
  method NextHunk(edits: seq<Edit>, left: seq<string>, right: seq<string>, context: nat, e0: nat, l0: nat, r0: nat)
    returns (found: bool, p: Printed, e: nat, l: nat, r: nat)
    requires Sound(edits, left, right) && e0 < |edits| && l0 == LeftAt(edits, e0) && r0 == RightAt(edits, e0)
    requires e0 == 0 || (l0 >= context && Matches(edits, e0, Min(e0 + context, |edits|)))
    ensures !found ==> context == 0 || Matches(edits, e0, |edits|)
    ensures found ==> context > 0 && e0 < e <= |edits| && l == LeftAt(edits, e) && r == RightAt(edits, e)
    ensures found ==> Faithful(p, left, right) && l0 <= p.leftStart - 1 && r0 <= p.rightStart - 1
    ensures found ==> left[l0..p.leftStart - 1] == right[r0..p.rightStart - 1]
    ensures found ==> l == p.leftStart - 1 + p.leftCount && r == p.rightStart - 1 + p.rightCount
    ensures found ==> e == |edits| || (l >= context && Matches(edits, e, Min(e + context, |edits|)))
    ensures found ==> Contextual(p, context, left, right)
  {
    hide LeftLines;
    hide RightLines;
    hide LeftAt;
    hide RightAt;
    hide Hunk.Valid;
    hide Contextual;
    hide Surrounded;
    hide Hunk.Shape;
    hide Faithful;
    hide Hunk.Lefts;
    hide Hunk.Rights;
    Ends(edits, left, right);
    var e1 := SkipMatches(edits, e0);
    MatchRun(edits, left, right, e0, e1);
    var l1, r1 := l0 + (e1 - e0), r0 + (e1 - e0);
    hide Sound;
    var prefix := Min(l1, context);
    var h := new Hunk(l1 - prefix + 1, r1 - prefix + 1);
    PushPrefix(h, left, l1, prefix);
    p, e, l, r := Printed(0, 0, 0, 0, false, false, []), e1, l1, r1;
    if e1 < |edits| {
      assert prefix <= e1 - e0;
      SamePrefix(left, right, l0, r0, e1 - e0, prefix);
      e, l, r := FillHunk(h, edits, left, right, context, e1, l1, r1, l1 - prefix, r1 - prefix);
    }
    found := h.adds != 0 || h.removes != 0;
    if found {
      p := PrintHunk(h, left, right, l1 - prefix, l, r1 - prefix, r, prefix, context, e == |edits|);
    }
  }

  method PrintHunk(h: Hunk, ghost left: seq<string>, ghost right: seq<string>, ghost a: nat, ghost l: nat,
                   ghost b: nat, ghost r: nat,
                   ghost lead: nat, ghost context: nat, ghost atEnd: bool)
    returns (p: Printed)
    requires context > 0 && Surrounded(h.Shape(), lead, context, atEnd) && (atEnd ==> l == |left| && r == |right|)
    requires lead == context || (lead < context && a == 0)
    requires h.Valid() && h.adds + h.removes > 0 && a <= l <= |left| && b <= r <= |right|
    requires h.leftStart == a + 1 && h.rightStart == b + 1 && h.Lefts() == left[a..l] && h.Rights() == right[b..r]
    modifies h
    ensures Faithful(p, left, right)
    ensures p.leftStart == a + 1 && p.leftCount == l - a && p.rightStart == b + 1 && p.rightCount == r - b
    ensures Contextual(p, context, left, right)
  {
    hide LeftLines;
    hide RightLines;
    hide Runs;
    hide Hunk.Shape;
    hide Surrounded;
    hide Contextual;
    p := h.Print();
    ContextShown(p, lead, context, atEnd, left, right);
  }

  /**
   * A hunk starts with as many common lines as the context asks for, or with all there are; ends
   * with as many, or where both inputs end; and has no room inside to be two hunks.
   */
  ghost predicate Contextual(p: Printed, context: nat, left: seq<string>, right: seq<string>) {
    && (exists n: nat :: Leading(p.lines, n) && (n == context || (n < context && p.leftStart == 1)))
    && (exists n: nat :: Trailing(p.lines, n) && n <= context && (n == context || ReachesEnd(p, left, right)))
    && GapsBelow(p.lines, 2 * context)
  }

  ghost predicate ReachesEnd(p: Printed, left: seq<string>, right: seq<string>) {
    p.leftStart - 1 + p.leftCount == |left| && p.rightStart - 1 + p.rightCount == |right|
  }

  lemma ContextShown(p: Printed, lead: nat, context: nat, atEnd: bool, left: seq<string>, right: seq<string>)
    requires context > 0 && Surrounded(Runs(p.lines), lead, context, atEnd) && (atEnd ==> ReachesEnd(p, left, right))
    requires lead == context || (lead < context && p.leftStart == 1)
    ensures Contextual(p, context, left, right)
  {
    hide Runs;
    RunsMean(p.lines);
    InnerRunsMean(p.lines, 2 * context);
  }

  /** The last n of k equal lines are equal, and so are the others. */
  lemma SamePrefix(left: seq<string>, right: seq<string>, l: nat, r: nat, k: nat, n: nat)
    requires n <= k && l + k <= |left| && r + k <= |right| && left[l..l + k] == right[r..r + k]
    ensures left[l + k - n..l + k] == right[r + k - n..r + k]
    ensures left[l..l + k - n] == right[r..r + k - n]
  {
    SliceOfSlice(left, l, k, 0, k - n);
    SliceOfSlice(right, r, k, 0, k - n);
    SliceOfSlice(left, l, k, k - n, k);
    SliceOfSlice(right, r, k, k - n, k);
  }

  lemma SliceOfSlice(s: seq<string>, l: nat, k: nat, i: nat, j: nat)
    requires i <= j <= k && l + k <= |s|
    ensures s[l + i..l + j] == s[l..l + k][i..j]
  {
    var t := s[l..l + k];
    assert |s[l + i..l + j]| == |t[i..j]|;
    forall x | 0 <= x < j - i
      ensures s[l + i..l + j][x] == t[i..j][x]
    {
      assert t[i..j][x] == t[i + x];
    }
  }

  /**
   * For any context of at least one line the hunks are faithful, ordered and disjoint,
   * and applying them to left gives right, even from what their text shows alone. With no
   * context at all nothing is printed, so right comes out only when there was nothing to do.
   */
  method CreateUnifiedDiff<C>(ar: Arithmetic<C>, left: seq<string>, right: seq<string>, context: nat)
    returns (hunks: seq<Printed>)
    ensures WellPlaced(hunks, left, right)
    ensures Patched(hunks, left, right) == right <==> context > 0 || left == right
    ensures PatchedByText(Texts(hunks), left, 0, 0) == right <==> context > 0 || left == right
    ensures context == 0 ==> hunks == []
    ensures forall i :: 0 <= i < |hunks| ==> Contextual(hunks[i], context, left, right)
  {
    hide Contextual;
    hide LeftAt;
    hide RightAt;
    hide Faithful;
    hide WellPlaced;
    hide Applied;
    hide Patched;
    hide LeftEnd;
    hide RightEnd;
    hide Sound;
    hide Seamless;
    hide PatchedByText;
    hide Texts;
    var edits := CalculateLineEdits(ar, left, right);
    Ends(edits, left, right);
    NoHunks(left, right);
    hunks := [];
    var e, l, r := 0, 0, 0;
    while e < |edits|
      invariant e <= |edits| && l == LeftAt(edits, e) && r == RightAt(edits, e)
      invariant WellPlaced(hunks, left, right) && LeftEnd(hunks) == l <= |left| && RightEnd(hunks) == r <= |right|
      invariant Applied(hunks, left, right) == right[..r] && Seamless(hunks, left, right)
      invariant context == 0 ==> hunks == []
      invariant forall i :: 0 <= i < |hunks| ==> Contextual(hunks[i], context, left, right)
      invariant e == 0 || e == |edits| || (l >= context && Matches(edits, e, Min(e + context, |edits|)))
      decreases |edits| - e
    {
      var found, p, e', l', r' := NextHunk(edits, left, right, context, e, l, r);
      if !found {
        if context > 0 {
          MatchRun(edits, left, right, e, |edits|);
          assert left[l..] == left[l..|left|] && right[r..] == right[r..|right|];
          PatchedRest(hunks, left, right);
          TextSuffices(hunks, left, right);
        }
        return;
      }
      AppendHunk(hunks, p, left, right);
      SeamlessSnoc(hunks, p, left, right);
      hunks := hunks + [p];
      EndNonNegative(hunks, left, right);
      e, l, r := e', l', r';
    }
    PatchedRest(hunks, left, right);
    TextSuffices(hunks, left, right);
  }

  /** The lines after the last hunk are equal. */
  lemma PatchedRest(hunks: seq<Printed>, left: seq<string>, right: seq<string>)
    requires WellPlaced(hunks, left, right) && 0 <= LeftEnd(hunks) <= |left| && 0 <= RightEnd(hunks) <= |right|
    requires Applied(hunks, left, right) == right[..RightEnd(hunks)]
    requires left[LeftEnd(hunks)..] == right[RightEnd(hunks)..]
    ensures Patched(hunks, left, right) == right
  {
    hide Applied;
    hide WellPlaced;
    assert right[..RightEnd(hunks)] + right[RightEnd(hunks)..] == right;
  }

  lemma NoHunks(left: seq<string>, right: seq<string>)
    ensures WellPlaced([], left, right) && Applied([], left, right) == []
    ensures Patched([], left, right) == left && LeftEnd([]) == RightEnd([]) == 0
    ensures Seamless([], left, right) && PatchedByText(Texts([]), left, 0, 0) == left
  {
  }
}
