/** Googletest's simple regular expressions (gtest-port.cc), against what they mean. */
module SimpleRegex {
  import opened Wrappers

  // ---- Character classes ----

  predicate IsAsciiDigit(ch: char) { '0' <= ch <= '9' }

  predicate IsAsciiPunct(ch: char) {
    ch in "^-!\"#$%&'()*+,./:;<=>?@[\\]_`{|}~"
  }

  predicate IsRepeat(ch: char) { ch == '?' || ch == '*' || ch == '+' }

  predicate IsAsciiWhiteSpace(ch: char) {
    ch == ' ' || ch == '\U{0C}' || ch == '\n' || ch == '\r' || ch == '\t' || ch == '\U{0B}'
  }

  predicate IsAsciiWordChar(ch: char) {
    'a' <= ch <= 'z' || 'A' <= ch <= 'Z' || '0' <= ch <= '9' || ch == '_'
  }

  predicate IsValidEscape(c: char) {
    IsAsciiPunct(c) || c in "dDfnrsStvwW"
  }

  predicate IsUnsupported(c: char) {
    c == '(' || c == ')' || c == '[' || c == ']' || c == '{' || c == '}' || c == '|'
  }

  predicate AtomMatchesChar(escaped: bool, p: char, ch: char) {
    if escaped then
      match p
      case 'd' => IsAsciiDigit(ch)
      case 'D' => !IsAsciiDigit(ch)
      case 'f' => ch == '\U{0C}'
      case 'n' => ch == '\n'
      case 'r' => ch == '\r'
      case 's' => IsAsciiWhiteSpace(ch)
      case 'S' => !IsAsciiWhiteSpace(ch)
      case 't' => ch == '\t'
      case 'v' => ch == '\U{0B}'
      case 'w' => IsAsciiWordChar(ch)
      case 'W' => !IsAsciiWordChar(ch)
      case _ => IsAsciiPunct(p) && p == ch
    else
      (p == '.' && ch != '\n') || p == ch
  }

  /** A dot matches all but a newline, any other unescaped character only itself. */
  lemma PlainAtoms(p: char, ch: char)
    ensures AtomMatchesChar(false, '.', ch) <==> ch != '\n'
    ensures p != '.' ==> (AtomMatchesChar(false, p, ch) <==> ch == p)
  {
  }

  /** What each escape class holds. */
  lemma EscapedAtoms(ch: char)
    ensures AtomMatchesChar(true, 'd', ch) <==> 48 <= ch as int <= 57
    ensures AtomMatchesChar(true, 's', ch) <==> ch as int == 32 || 9 <= ch as int <= 13
    ensures AtomMatchesChar(true, 'w', ch) <==>
            48 <= ch as int <= 57 || 65 <= ch as int <= 90 || ch as int == 95 || 97 <= ch as int <= 122
    ensures AtomMatchesChar(true, 'D', ch) <==> !AtomMatchesChar(true, 'd', ch)
    ensures AtomMatchesChar(true, 'S', ch) <==> !AtomMatchesChar(true, 's', ch)
    ensures AtomMatchesChar(true, 'W', ch) <==> !AtomMatchesChar(true, 'w', ch)
    ensures AtomMatchesChar(true, 't', ch) <==> ch as int == 9
    ensures AtomMatchesChar(true, 'n', ch) <==> ch as int == 10
    ensures AtomMatchesChar(true, 'v', ch) <==> ch as int == 11
    ensures AtomMatchesChar(true, 'f', ch) <==> ch as int == 12
    ensures AtomMatchesChar(true, 'r', ch) <==> ch as int == 13
  {
  }

  /** Punctuation: every visible ASCII character that is neither a letter nor a digit. */
  predicate Visible(c: char) {
    33 <= c as int <= 126
  }

  predicate Alphanumeric(c: char) {
    48 <= c as int <= 57 || 65 <= c as int <= 90 || 97 <= c as int <= 122
  }

  lemma Punctuation(c: char)
    ensures IsAsciiPunct(c) <==> Visible(c) && !Alphanumeric(c)
  {
  }

  /** Escaped punctuation matches itself; no other letter than those of the classes may be escaped. */
  lemma OtherEscapes(p: char, ch: char)
    requires IsAsciiPunct(p)
    ensures AtomMatchesChar(true, p, ch) <==> ch == p
    ensures IsValidEscape(p)
  {
    Punctuation(p);
    hide IsAsciiPunct;
  }

  lemma EscapeLetters(c: char)
    requires Alphanumeric(c)
    ensures IsValidEscape(c) <==> c in {'d', 'D', 'f', 'n', 'r', 's', 'S', 't', 'v', 'w', 'W'}
  {
    Punctuation(c);
  }

  /** The characters with a meaning of their own. */
  lemma SpecialCharacters(c: char)
    ensures IsRepeat(c) <==> c in {'?', '*', '+'}
    ensures IsUnsupported(c) <==> c in {'(', ')', '[', ']', '{', '}', '|'}
  {
  }

  // ---- Syntax ----

  /** An atom and how often it may occur; an absent repetition is Once. */
  datatype Times = Once | Optional | Any | Many {
    predicate Allows(k: nat) {
      match this
      case Once => k == 1
      case Optional => k <= 1
      case Any => true
      case Many => k >= 1
    }
  }

  datatype Piece = Piece(escaped: bool, c: char, times: Times)

  datatype Body = Body(pieces: seq<Piece>, end: bool)

  datatype Regex = Regex(start: bool, body: Body)

  function TimesOf(op: char): Times {
    if op == '?' then Optional else if op == '*' then Any else Many
  }

  /** Pieces, then possibly a final $. */
  function ParseBody(s: string): Option<Body>
    decreases |s|, 0
  {
    if s == "" then Some(Body([], false))
    else if s == "$" then Some(Body([], true))
    else if s[0] == '\\' then
      if |s| == 1 || !IsValidEscape(s[1]) then None else ParseTail(true, s[1], s[2..])
    else if s[0] == '^' || s[0] == '$' || IsUnsupported(s[0]) || IsRepeat(s[0]) then None
    else ParseTail(false, s[0], s[1..])
  }

  /** What follows an atom: possibly a repetition, then more pieces. */
  function ParseTail(escaped: bool, c: char, rest: string): Option<Body>
    decreases |rest|, 1
  {
    if rest != "" && IsRepeat(rest[0])
    then Prepend(Piece(escaped, c, TimesOf(rest[0])), ParseBody(rest[1..]))
    else Prepend(Piece(escaped, c, Once), ParseBody(rest))
  }

  function Prepend(p: Piece, b: Option<Body>): Option<Body> {
    if b.None? then None else Some(Body([p] + b.value.pieces, b.value.end))
  }

  function Parse(s: string): Option<Regex> {
    var start := s != "" && s[0] == '^';
    var body := ParseBody(if start then s[1..] else s);
    if body.None? then None else Some(Regex(start, body.value))
  }

  // ---- The grammar, by what it derives ----

  function RepeatText(t: Times): string {
    match t
    case Once => ""
    case Optional => "?"
    case Any => "*"
    case Many => "+"
  }

  function PieceText(p: Piece): string {
    (if p.escaped then "\\" else "") + [p.c] + RepeatText(p.times)
  }

  function BodyText(b: Body): string
    decreases |b.pieces|
  {
    if b.pieces == [] then if b.end then "$" else ""
    else PieceText(b.pieces[0]) + BodyText(Body(b.pieces[1..], b.end))
  }

  function RegexText(rx: Regex): string {
    (if rx.start then "^" else "") + BodyText(rx.body)
  }

  /** An escape is of punctuation or one of the class letters; unescaped characters have no other meaning. */
  predicate PieceOk(p: Piece) {
    if p.escaped then IsValidEscape(p.c)
    else p.c !in {'\\', '^', '$', '(', ')', '[', ']', '{', '}', '|', '?', '*', '+'}
  }

  predicate BodyOk(b: Body) {
    forall i :: 0 <= i < |b.pieces| ==> PieceOk(b.pieces[i])
  }

  lemma TailOf(escaped: bool, c: char, times: Times, rest: string)
    requires rest == "" || !IsRepeat(rest[0])
    ensures ParseTail(escaped, c, RepeatText(times) + rest) == Prepend(Piece(escaped, c, times), ParseBody(rest))
  {
    hide ParseBody;
    var s := RepeatText(times) + rest;
    if times == Once {
      assert s == rest;
    } else {
      assert s[1..] == rest;
    }
  }

  lemma BodyTextStart(b: Body)
    requires BodyOk(b)
    ensures BodyText(b) == "" || (!IsRepeat(BodyText(b)[0]) && BodyText(b)[0] != '^')
  {
  }

  lemma PieceParses(p: Piece, rest: string)
    requires PieceOk(p) && (rest == "" || !IsRepeat(rest[0]))
    ensures ParseBody(PieceText(p) + rest) == Prepend(p, ParseBody(rest))
  {
    hide IsValidEscape;
    hide ParseTail;
    var tail := RepeatText(p.times) + rest;
    TailOf(p.escaped, p.c, p.times, rest);
    PieceSplit(p, rest, tail);
    hide RepeatText;
    hide PieceText;
  }

  lemma PieceSplit(p: Piece, rest: string, tail: string)
    requires tail == RepeatText(p.times) + rest
    ensures var s := PieceText(p) + rest;
            if p.escaped then |s| >= 2 && s[0] == '\\' && s[1] == p.c && s[2..] == tail
            else |s| >= 1 && s[0] == p.c && s[1..] == tail
  {
    hide RepeatText;
    var s := PieceText(p) + rest;
    assert s == (if p.escaped then ['\\', p.c] else [p.c]) + tail;
  }

  lemma {:induction false} BodyParses(b: Body)
    requires BodyOk(b)
    ensures ParseBody(BodyText(b)) == Some(b)
    decreases |b.pieces|
  {
    if b.pieces != [] {
      var rest := Body(b.pieces[1..], b.end);
      BodyParses(rest);
      BodyTextStart(rest);
      PieceParses(b.pieces[0], BodyText(rest));
      assert [b.pieces[0]] + b.pieces[1..] == b.pieces;
    }
  }

  lemma {:induction false} ParsedBody(s: string)
    requires ParseBody(s).Some?
    ensures BodyOk(ParseBody(s).value) && BodyText(ParseBody(s).value) == s
    decreases |s|
  {
    if s != "" && s != "$" {
      var p, tail := PieceTaken(s);
      hide ParseBody;
      hide PieceOk;
      hide PieceText;
      ParsedBody(tail);
      var b := ParseBody(s).value;
      assert b.pieces[0] == p && b.pieces[1..] == ParseBody(tail).value.pieces;
    }
  }

  /** The piece a body starts with, as it is written. */
  lemma PieceTaken(s: string) returns (p: Piece, tail: string)
    requires ParseBody(s).Some? && s != "" && s != "$"
    ensures PieceOk(p) && PieceText(p) + tail == s && |tail| < |s|
    ensures ParseBody(tail).Some? && ParseBody(s) == Prepend(p, ParseBody(tail))
  {
    hide IsValidEscape;
    var escaped := s[0] == '\\';
    var used := if escaped then 2 else 1;
    var c := s[used - 1];
    var rest := s[used..];
    assert ParseBody(s) == ParseTail(escaped, c, rest);
    var repeats := rest != "" && IsRepeat(rest[0]);
    tail := if repeats then rest[1..] else rest;
    p := Piece(escaped, c, if repeats then TimesOf(rest[0]) else Once);
    assert ParseBody(s) == Prepend(p, ParseBody(tail));
    hide ParseBody;
    assert RepeatText(p.times) + tail == rest;
    assert (if escaped then ['\\', c] else [c]) + rest == s;
    PieceSplit(p, tail, rest);
  }

  /** A string parses to a regex exactly if it is how that regex is written, and each piece may be written so. */
  lemma ParsedExactly(s: string, rx: Regex)
    ensures Parse(s) == Some(rx) <==> BodyOk(rx.body) && RegexText(rx) == s
  {
    hide ParseBody;
    hide BodyOk;
    hide BodyText;
    var body := if s != "" && s[0] == '^' then s[1..] else s;
    if Parse(s) == Some(rx) {
      ParsedBody(body);
    }
    if BodyOk(rx.body) && RegexText(rx) == s {
      BodyParses(rx.body);
      BodyTextStart(rx.body);
      assert "" + BodyText(rx.body) == BodyText(rx.body);
      assert body == BodyText(rx.body);
    }
  }

  // ---- Validation ----

  /** The loop's verdict on the rest of a regex, once the first character is behind it. */
  predicate ValidFrom(s: string, prevRepeatable: bool)
    decreases |s|
  {
    if s == "" then true
    else if s[0] == '\\' then |s| > 1 && IsValidEscape(s[1]) && ValidFrom(s[2..], true)
    else
      && s[0] != '^'
      && (s[0] == '$' ==> |s| == 1)
      && !IsUnsupported(s[0])
      && (IsRepeat(s[0]) ==> prevRepeatable)
      && ValidFrom(s[1..], !IsRepeat(s[0]) && s[0] != '$')
  }

  /** The loop accepts what the grammar derives. */
  lemma {:induction false} ValidFromIsParsable(s: string)
    ensures ValidFrom(s, false) <==> ParseBody(s).Some?
    ensures ValidFrom(s, true) <==> ParseTail(false, 'a', s).Some?
    decreases |s|
  {
    hide IsValidEscape;
    assert |s| == 1 ==> s == [s[0]];
    if s != "" {
      if s[0] == '\\' {
        if |s| > 1 {
          ValidFromIsParsable(s[2..]);
          TailShape(true, s[1], s[2..]);
        }
      } else {
        ValidFromIsParsable(s[1..]);
        TailShape(false, s[0], s[1..]);
      }
    }
  }

  lemma TailShape(escaped: bool, c: char, rest: string)
    ensures ParseTail(escaped, c, rest).Some? <==> ParseTail(false, 'a', rest).Some?
  {
  }

  method ValidateRegex(regex: Option<string>) returns (ok: bool)
    ensures ok <==> regex.Some? && Parse(regex.value).Some?
  {
    hide IsValidEscape;
    if regex.None? {
      return false;
    }
    var s := regex.value;
    ok := true;
    var prevRepeatable := false;
    var i := 0;
    ValidStart(s);
    while i < |s|
      invariant 0 <= i <= |s|
      invariant i > 0 ==> (Parse(s).Some? <==> ok && ValidFrom(s[i..], prevRepeatable))
      invariant i == 0 ==> ok && !prevRepeatable
    {
      ghost var rest, before := s[i..], prevRepeatable;
      assert i > 0 || s[0] != '^' ==> (Parse(s).Some? <==> ok && ValidFrom(rest, before));
      if s[i] == '\\' {
        i := i + 1;
        if i == |s| {
          return false;
        }
        if !IsValidEscape(s[i]) {
          ok := false;
        }
        prevRepeatable := true;
        assert rest[2..] == s[i + 1..];
      } else {
        var ch := s[i];
        if ch == '^' && i > 0 {
          ok := false;
        } else if ch == '$' && i + 1 < |s| {
          ok := false;
        } else if IsUnsupported(ch) {
          ok := false;
        } else if IsRepeat(ch) && !prevRepeatable {
          ok := false;
        }
        prevRepeatable := !(ch == '^' || ch == '$' || IsRepeat(ch));
        assert rest[1..] == s[i + 1..];
      }
      i := i + 1;
    }
  }

  lemma ValidStart(s: string)
    ensures Parse(s).Some? <==>
            if s != "" && s[0] == '^' then ValidFrom(s[1..], false) else ValidFrom(s[0..], false)
  {
    hide IsValidEscape;
    assert s[0..] == s;
    ValidFromIsParsable(s);
    if s != "" {
      ValidFromIsParsable(s[1..]);
    }
  }

  // ---- Meaning ----

  predicate AtomsMatch(escaped: bool, c: char, s: string) {
    forall i :: 0 <= i < |s| ==> AtomMatchesChar(escaped, c, s[i])
  }

  predicate PieceMatches(p: Piece, s: string) {
    p.times.Allows(|s|) && AtomsMatch(p.escaped, p.c, s)
  }

  /** s falls into parts that the pieces match in turn. */
  ghost predicate PiecesMatch(ps: seq<Piece>, s: string) {
    if ps == [] then s == ""
    else exists k :: 0 <= k <= |s| && PieceMatches(ps[0], s[..k]) && PiecesMatch(ps[1..], s[k..])
  }

  /** The regex matches str from i to j, anchors included. */
  ghost predicate MatchesAt(rx: Regex, str: string, i: int, j: int) {
    && 0 <= i <= j <= |str|
    && (rx.start ==> i == 0)
    && (rx.body.end ==> j == |str|)
    && PiecesMatch(rx.body.pieces, str[i..j])
  }

  /** Some prefix of str, the whole of it if the body ends in $. */
  ghost predicate HeadMatches(b: Body, str: string) {
    exists j :: 0 <= j <= |str| && (b.end ==> j == |str|) && PiecesMatch(b.pieces, str[..j])
  }

  /** The first piece takes k characters and the others match what is left. */
  ghost predicate SplitsAt(p: Piece, b: Body, str: string, k: int) {
    0 <= k <= |str| && PieceMatches(p, str[..k]) && HeadMatches(b, str[k..])
  }

  lemma HeadCons(p: Piece, b: Body, str: string)
    ensures HeadMatches(Body([p] + b.pieces, b.end), str) <==> exists k :: SplitsAt(p, b, str, k)
  {
    hide PieceMatches;
    var ps := [p] + b.pieces;
    assert ps[0] == p && ps[1..] == b.pieces;
    if HeadMatches(Body(ps, b.end), str) {
      var j :| 0 <= j <= |str| && (b.end ==> j == |str|) && PiecesMatch(ps, str[..j]);
      var k :| 0 <= k <= j && PieceMatches(p, str[..j][..k]) && PiecesMatch(b.pieces, str[..j][k..]);
      assert str[..j][..k] == str[..k] && str[..j][k..] == str[k..][..j - k];
      assert SplitsAt(p, b, str, k);
    }
    if k :| SplitsAt(p, b, str, k) {
      var j :| 0 <= j <= |str[k..]| && (b.end ==> j == |str[k..]|) && PiecesMatch(b.pieces, str[k..][..j]);
      assert str[..k + j][..k] == str[..k] && str[..k + j][k..] == str[k..][..j];
      assert PiecesMatch(ps, str[..k + j]);
    }
  }

  lemma HeadEmpty(b: Body, str: string)
    requires b.pieces == []
    ensures HeadMatches(b, str) <==> b.end ==> str == ""
  {
    if b.end ==> str == "" {
      assert PiecesMatch([], str[..0]);
    }
  }

  // ---- Matching ----

  const MAX_COUNT: nat := 0xFFFF_FFFF_FFFF_FFFE

  /** A repeated atom, then the rest of the regex; fewer repetitions are tried first. */
  method MatchRepetitionAndRegexAtHead(escaped: bool, c: char, repeat: char, regex: string, str: string)
    returns (ok: bool)
    requires IsRepeat(repeat) && ParseBody(regex).Some? && |str| <= MAX_COUNT
    ensures ok <==> exists k :: SplitsAt(Piece(escaped, c, TimesOf(repeat)), ParseBody(regex).value, str, k)
    decreases |regex|, 1
  {
    hide AtomMatchesChar;
    hide ParseBody;
    hide HeadMatches;
    ghost var p, b := Piece(escaped, c, TimesOf(repeat)), ParseBody(regex).value;
    var minCount := if repeat == '+' then 1 else 0;
    var maxCount := if repeat == '?' then 1 else MAX_COUNT;
    var i := 0;
    while i <= maxCount
      invariant 0 <= i <= |str| && i <= maxCount + 1
      invariant AtomsMatch(escaped, c, str[..i])
      invariant forall k :: 0 <= k < i ==> !SplitsAt(p, b, str, k)
      decreases maxCount + 1 - i
    {
      if i >= minCount {
        var tail := MatchRegexAtHead(regex, str[i..]);
        if tail {
          assert SplitsAt(p, b, str, i);
          return true;
        }
      }
      assert !SplitsAt(p, b, str, i);
      if i == |str| || !AtomMatchesChar(escaped, c, str[i]) {
        NoLongerMatch(p, b, str, i);
        return false;
      }
      assert str[..i + 1] == str[..i] + [str[i]];
      i := i + 1;
    }
    forall k | k >= i
      ensures !SplitsAt(p, b, str, k)
    {
    }
    return false;
  }

  lemma NoLongerMatch(p: Piece, b: Body, str: string, i: nat)
    requires i <= |str| && (i < |str| ==> !AtomMatchesChar(p.escaped, p.c, str[i]))
    ensures forall k :: k > i ==> !SplitsAt(p, b, str, k)
  {
    hide AtomMatchesChar;
    forall k | i < k <= |str|
      ensures !PieceMatches(p, str[..k])
    {
      assert str[..k][i] == str[i];
    }
  }

  method MatchRegexAtHead(regex: string, str: string) returns (ok: bool)
    requires ParseBody(regex).Some? && |str| <= MAX_COUNT
    ensures ok <==> HeadMatches(ParseBody(regex).value, str)
    decreases |regex|, 0
  {
    hide AtomMatchesChar;
    hide IsValidEscape;
    hide HeadMatches;
    hide SplitsAt;
    if regex == "" {
      HeadEmpty(ParseBody(regex).value, str);
      return true;
    }
    if regex[0] == '$' {
      assert regex == "$";
      HeadEmpty(ParseBody(regex).value, str);
      return str == "";
    }
    var escaped := regex[0] == '\\';
    var rx := if escaped then regex[1..] else regex;
    ghost var rest := rx[1..];
    assert rest == if escaped then regex[2..] else regex[1..];
    if |rx| > 1 && IsRepeat(rx[1]) {
      assert rest[1..] == rx[2..];
      ghost var b := ParseBody(rx[2..]).value;
      HeadCons(Piece(escaped, rx[0], TimesOf(rx[1])), b, str);
      ok := MatchRepetitionAndRegexAtHead(escaped, rx[0], rx[1], rx[2..], str);
    } else {
      ghost var p, b := Piece(escaped, rx[0], Once), ParseBody(rx[1..]).value;
      HeadCons(p, b, str);
      OnceSplits(p, b, str);
      ok := str != "" && AtomMatchesChar(escaped, rx[0], str[0]);
      if ok {
        ok := MatchRegexAtHead(rx[1..], str[1..]);
      }
    }
  }

  lemma OnceSplits(p: Piece, b: Body, str: string)
    requires p.times == Once
    ensures (exists k :: SplitsAt(p, b, str, k)) <==>
            str != "" && AtomMatchesChar(p.escaped, p.c, str[0]) && HeadMatches(b, str[1..])
  {
    hide AtomMatchesChar;
    hide HeadMatches;
    assert forall k :: SplitsAt(p, b, str, k) ==> k == 1 && str[..k][0] == str[0];
    if str != "" && AtomMatchesChar(p.escaped, p.c, str[0]) && HeadMatches(b, str[1..]) {
      assert str[..1][0] == str[0];
      assert SplitsAt(p, b, str, 1);
    }
  }

  /** False for a null pointer. */
  method MatchRegexAnywhere(regex: Option<string>, str: Option<string>) returns (ok: bool)
    requires regex.Some? ==> Parse(regex.value).Some?
    requires str.Some? ==> |str.value| <= MAX_COUNT
    ensures ok <==> regex.Some? && str.Some? && exists i, j :: MatchesAt(Parse(regex.value).value, str.value, i, j)
  {
    if regex.None? || str.None? {
      return false;
    }
    ok := MatchAnywhere(regex.value, str.value);
  }

  /** Exactly when some substring matches. */
  method MatchAnywhere(regex: string, str: string) returns (ok: bool)
    requires Parse(regex).Some? && |str| <= MAX_COUNT
    ensures ok <==> exists i, j :: MatchesAt(Parse(regex).value, str, i, j)
  {
    hide ParseBody;
    hide PiecesMatch;
    ghost var rx := Parse(regex).value;
    if regex != "" && regex[0] == '^' {
      ok := MatchRegexAtHead(regex[1..], str);
      AtPosition(rx, str, 0);
      assert str[0..] == str;
      return;
    }
    var i := 0;
    while true
      invariant 0 <= i <= |str|
      invariant forall k, j :: 0 <= k < i ==> !MatchesAt(rx, str, k, j)
      decreases |str| - i
    {
      ok := MatchRegexAtHead(regex, str[i..]);
      AtPosition(rx, str, i);
      if ok || i == |str| {
        return;
      }
      i := i + 1;
    }
  }

  lemma AtPosition(rx: Regex, str: string, i: nat)
    requires i <= |str| && (rx.start ==> i == 0)
    ensures HeadMatches(rx.body, str[i..]) <==> exists j :: MatchesAt(rx, str, i, j)
  {
    hide PiecesMatch;
    if j :| MatchesAt(rx, str, i, j) {
      assert str[i..][..j - i] == str[i..j];
    }
    if HeadMatches(rx.body, str[i..]) {
      var n :| 0 <= n <= |str[i..]| && (rx.body.end ==> n == |str[i..]|) && PiecesMatch(rx.body.pieces, str[i..][..n]);
      assert str[i..][..n] == str[i..i + n];
      assert MatchesAt(rx, str, i, i + n);
    }
  }

  // ---- The RE class ----

  /** Backslashes at the end of s. */
  function TrailingBackslashes(s: string): nat {
    if s == "" || s[|s| - 1] != '\\' then 0 else TrailingBackslashes(s[..|s| - 1]) + 1
  }

  /** The last character is a $ that a backslash takes the meaning from. */
  predicate EndsInEscapedDollar(s: string) {
    s != "" && s[|s| - 1] == '$' && TrailingBackslashes(s[..|s| - 1]) % 2 == 1
  }

  lemma {:induction false} TrailingAppend(a: string, s: string)
    ensures TrailingBackslashes(a + s) ==
            if TrailingBackslashes(s) == |s| then TrailingBackslashes(a) + |s| else TrailingBackslashes(s)
    decreases |s|
  {
    if s == "" {
      assert a + s == a;
    } else {
      assert (a + s)[..|a + s| - 1] == a + s[..|s| - 1];
      TrailingAppend(a, s[..|s| - 1]);
      TrailingBound(s[..|s| - 1]);
    }
  }

  lemma {:induction false} TrailingBound(s: string)
    ensures TrailingBackslashes(s) <= |s|
  {
    if s != "" {
      TrailingBound(s[..|s| - 1]);
    }
  }

  /** The first piece of a body, as many characters as it takes, and the body after it. */
  lemma FirstPiece(s: string) returns (skip: nat, p: Piece)
    requires ParseBody(s).Some? && s != "" && s != "$"
    ensures 1 <= skip <= |s| && ParseBody(s[skip..]).Some?
    ensures ParseBody(s) == Prepend(p, ParseBody(s[skip..]))
    ensures TrailingBackslashes(s[..skip]) % 2 == 0
    ensures skip == |s| && s[|s| - 1] == '$' ==> p == Piece(true, '$', Once) && s == "\\$"
  {
    hide IsValidEscape;
    var escaped := s[0] == '\\';
    var used := if escaped then 2 else 1;
    var c := if escaped then s[1] else s[0];
    var rest := s[used..];
    var repeats := rest != "" && IsRepeat(rest[0]);
    skip := if repeats then used + 1 else used;
    p := Piece(escaped, c, if repeats then TimesOf(rest[0]) else Once);
    assert s[skip..] == if repeats then rest[1..] else rest;
    assert ParseBody(s) == ParseTail(escaped, c, rest);
    HeadParity(s, skip, escaped);
  }

  /** In a parsable body a final $ is the anchor unless it is escaped. */
  lemma {:induction false} FinalDollar(s: string)
    requires ParseBody(s).Some? && s != "" && s[|s| - 1] == '$'
    ensures ParseBody(s).value.end <==> TrailingBackslashes(s[..|s| - 1]) % 2 == 0
    ensures !ParseBody(s).value.end ==>
              var ps := ParseBody(s).value.pieces; ps != [] && ps[|ps| - 1] == Piece(true, '$', Once)
    decreases |s|
  {
    hide ParseBody;
    hide TrailingBackslashes;
    ShortBodies();
    var n := |s| - 1;
    if s == "$" {
      assert s[..0] == "";
    } else {
      var skip, p := FirstPiece(s);
      var tail := s[skip..];
      if skip == |s| {
        assert tail == "" && s[..n] == "\\";
      } else {
        FinalDollar(tail);
        assert s[..n] == s[..skip] + tail[..|tail| - 1];
        TrailingAppend(s[..skip], tail[..|tail| - 1]);
      }
    }
  }

  lemma ShortBodies()
    ensures ParseBody("") == Some(Body([], false)) && ParseBody("$") == Some(Body([], true))
    ensures TrailingBackslashes("") == 0 && TrailingBackslashes("\\") == 1
  {
    assert "\\"[..0] == "";
  }

  /** What the first piece of a body ends in: an even number of backslashes. */
  lemma HeadParity(s: string, skip: nat, escaped: bool)
    requires skip <= |s| && (if escaped then 2 <= skip <= 3 && s[0] == '\\' else 1 <= skip <= 2 && s[0] != '\\')
    requires skip == (if escaped then 3 else 2) ==> IsRepeat(s[skip - 1])
    ensures TrailingBackslashes(s[..skip]) % 2 == 0
  {
    var head := s[..skip];
    if escaped && skip == 2 {
      assert head[..1] == [s[0]] && head[..1][..0] == "";
      assert TrailingBackslashes(head[..1]) == 1;
    }
  }

  /** A $ put at the end of a body that has no anchor becomes its anchor. */
  lemma {:induction false} AppendDollar(s: string)
    requires ParseBody(s).Some? && !ParseBody(s).value.end
    ensures ParseBody(s + "$") == Some(Body(ParseBody(s).value.pieces, true))
    decreases |s|
  {
    hide IsValidEscape;
    var t := s + "$";
    if s == "" {
      assert t == "$";
    } else {
      var escaped := s[0] == '\\';
      var used := if escaped then 2 else 1;
      var rest := s[used..];
      assert t[used..] == rest + "$";
      if rest != "" && IsRepeat(rest[0]) {
        assert (rest + "$")[1..] == rest[1..] + "$";
        AppendDollar(rest[1..]);
      } else {
        AppendDollar(rest);
        assert (rest + "$")[0] == if rest == "" then '$' else rest[0];
      }
    }
  }

  class RE {
    var pattern: Option<string>
    var fullPattern: Option<string>
    var isValid: bool

    ghost predicate Valid()
      reads this
    {
      && (isValid <==> pattern.Some? && Parse(pattern.value).Some?)
      && (isValid ==> fullPattern.Some? && Parse(fullPattern.value) == Some(FullRegex(pattern.value)))
    }

    constructor (regex: Option<string>)
      ensures Valid() && pattern == regex
    {
      var ok := ValidateRegex(regex);
      pattern, fullPattern, isValid := regex, None, ok;
      new;
      if ok {
        var s := regex.value;
        var buffer := if s == "" || s[0] != '^' then "^" else "";
        buffer := buffer + s;
        if s == "" || s[|s| - 1] != '$' {
          buffer := buffer + "$";
        }
        FullPatternParses(s, buffer);
        fullPattern := Some(buffer);
      }
    }

    /** Some substring of str matches. */
    method PartialMatch(str: Option<string>) returns (ok: bool)
      requires Valid() && (str.Some? ==> |str.value| <= MAX_COUNT)
      ensures ok <==>
              isValid && str.Some? && exists i, j :: MatchesAt(Parse(pattern.value).value, str.value, i, j)
    {
      if !isValid {
        return false;
      }
      ok := MatchRegexAnywhere(pattern, str);
    }

    /** The whole of str matches, or only a prefix where the pattern ends in an escaped dollar. */
    method FullMatch(str: Option<string>) returns (ok: bool)
      requires Valid() && (str.Some? ==> |str.value| <= MAX_COUNT)
      ensures ok <==> isValid && str.Some? && FullMatches(pattern.value, str.value)
    {
      if !isValid {
        return false;
      }
      ok := MatchRegexAnywhere(fullPattern, str);
      if str.Some? {
        FullMeaning(pattern.value, str.value);
      }
    }
  }

  /** The regex that the full pattern spells. */
  ghost function FullRegex(s: string): Regex
    requires Parse(s).Some?
  {
    Regex(true, Body(Parse(s).value.body.pieces, !EndsInEscapedDollar(s)))
  }

  lemma FullPatternParses(s: string, full: string)
    requires Parse(s).Some?
    requires full == (if s == "" || s[0] != '^' then "^" else "") + s +
                     (if s == "" || s[|s| - 1] != '$' then "$" else "")
    ensures Parse(full) == Some(FullRegex(s))
  {
    hide ParseBody;
    var start := s != "" && s[0] == '^';
    var body := if start then s[1..] else s;
    assert full[0] == '^';
    if s == "" || s[|s| - 1] != '$' {
      assert full[1..] == body + "$";
      NoFinalDollar(body);
      AppendDollar(body);
    } else {
      assert full[1..] == body && body != "" && body[|body| - 1] == '$';
      FinalDollar(body);
      if start {
        assert s[..|s| - 1] == "^" + body[..|body| - 1];
        TrailingAppend("^", body[..|body| - 1]);
        assert "^"[..0] == "";
      }
    }
  }

  lemma {:induction false} NoFinalDollar(s: string)
    requires ParseBody(s).Some? && (s == "" || s[|s| - 1] != '$')
    ensures !ParseBody(s).value.end
    decreases |s|
  {
    hide IsValidEscape;
    if s != "" {
      var rest := s[if s[0] == '\\' then 2 else 1..];
      if rest != "" && IsRepeat(rest[0]) {
        NoFinalDollar(rest[1..]);
      } else {
        NoFinalDollar(rest);
      }
    }
  }

  /** The pattern matches all of str. */
  ghost predicate WholeMatch(s: string, str: string)
    requires Parse(s).Some?
  {
    MatchesAt(Parse(s).value, str, 0, |str|)
  }

  /** What FullMatch answers. */
  ghost predicate FullMatches(s: string, str: string)
    requires Parse(s).Some?
  {
    if EndsInEscapedDollar(s) then exists j :: MatchesAt(Parse(s).value, str, 0, j) else WholeMatch(s, str)
  }

  lemma FullMeaning(s: string, str: string)
    requires Parse(s).Some?
    ensures (exists i, j :: MatchesAt(FullRegex(s), str, i, j)) <==> FullMatches(s, str)
  {
    hide ParseBody;
    hide PiecesMatch;
    var rx, full := Parse(s).value, FullRegex(s);
    EscapedDollarBody(s);
    assert forall i, j :: MatchesAt(full, str, i, j) ==> MatchesAt(rx, str, 0, j) && (full.body.end ==> j == |str|);
    assert forall j :: MatchesAt(rx, str, 0, j) && (full.body.end ==> j == |str|) ==> MatchesAt(full, str, 0, j);
  }

  /** An escaped dollar at the end is no anchor and is the last piece. */
  lemma EscapedDollarBody(s: string)
    requires Parse(s).Some?
    ensures var b := Parse(s).value.body;
            EndsInEscapedDollar(s) ==>
              !b.end && b.pieces != [] && b.pieces[|b.pieces| - 1] == Piece(true, '$', Once)
  {
    hide ParseBody;
    if EndsInEscapedDollar(s) {
      var start := s[0] == '^';
      var body := if start then s[1..] else s;
      if start {
        if |s| == 1 {
          assert false;
        }
        assert s[..|s| - 1] == "^" + body[..|body| - 1];
        TrailingAppend("^", body[..|body| - 1]);
        assert "^"[..0] == "";
      }
      FinalDollar(body);
    }
  }

  // ---- When a full match is a full match ----

  /** A character that the atom matches. */
  function Sample(p: Piece): char {
    if !p.escaped then p.c
    else match p.c
      case 'd' => '0'
      case 'D' => 'a'
      case 'f' => '\U{0C}'
      case 'n' => '\n'
      case 'r' => '\r'
      case 's' => ' '
      case 'S' => 'a'
      case 't' => '\t'
      case 'v' => '\U{0B}'
      case 'w' => 'a'
      case 'W' => ' '
      case c => c
  }

  ghost predicate Proper(ps: seq<Piece>) {
    forall i :: 0 <= i < |ps| && ps[i].escaped ==> IsValidEscape(ps[i].c)
  }

  lemma SampleMatches(p: Piece)
    requires p.escaped ==> IsValidEscape(p.c)
    ensures AtomMatchesChar(p.escaped, p.c, Sample(p))
  {
  }

  lemma {:induction false} ParsedProper(s: string)
    requires ParseBody(s).Some?
    ensures Proper(ParseBody(s).value.pieces)
    decreases |s|
  {
    hide IsValidEscape;
    if s != "" && s != "$" {
      var rest := s[if s[0] == '\\' then 2 else 1..];
      if rest != "" && IsRepeat(rest[0]) {
        ParsedProper(rest[1..]);
      } else {
        ParsedProper(rest);
      }
    }
  }

  /** Every list of pieces matches some string. */
  lemma {:induction false} Matchable(ps: seq<Piece>) returns (s: string)
    requires Proper(ps)
    ensures PiecesMatch(ps, s)
    decreases |ps|
  {
    hide IsValidEscape;
    hide AtomMatchesChar;
    if ps == [] {
      s := "";
    } else {
      var tail := Matchable(ps[1..]);
      SampleMatches(ps[0]);
      s := [Sample(ps[0])] + tail;
      assert s[..1] == [Sample(ps[0])] && s[1..] == tail;
      assert PieceMatches(ps[0], s[..1]);
    }
  }

  lemma {:induction false} LastPieceDollar(ps: seq<Piece>, s: string)
    requires ps != [] && ps[|ps| - 1] == Piece(true, '$', Once) && PiecesMatch(ps, s)
    ensures s != "" && s[|s| - 1] == '$'
    decreases |ps|
  {
    var k :| 0 <= k <= |s| && PieceMatches(ps[0], s[..k]) && PiecesMatch(ps[1..], s[k..]);
    if |ps| == 1 {
      assert s[k..] == "" && s[..k] == s;
    } else {
      hide AtomMatchesChar;
      LastPieceDollar(ps[1..], s[k..]);
    }
  }

  /** FullMatch means a full match for every string exactly when the regex does not end in an escaped dollar. */
  lemma FullMatchExact(s: string)
    requires Parse(s).Some?
    ensures (forall str :: FullMatches(s, str) <==> WholeMatch(s, str)) <==> !EndsInEscapedDollar(s)
  {
    hide ParseBody;
    hide PiecesMatch;
    if EndsInEscapedDollar(s) {
      EscapedDollarBody(s);
      var ps := Parse(s).value.body.pieces;
      ParsedProper(if s[0] == '^' then s[1..] else s);
      var w := Matchable(ps);
      var str := w + "x";
      assert str[0..|w|] == w;
      assert MatchesAt(Parse(s).value, str, 0, |w|);
      if WholeMatch(s, str) {
        assert str[0..|str|] == str;
        LastPieceDollar(ps, str);
      }
      assert FullMatches(s, str) && !WholeMatch(s, str);
    }
  }

  /** The smallest case: the regex \\$ fully matches "$x". */
  lemma EscapedDollarExample()
    ensures Parse("\\$").Some? && EndsInEscapedDollar("\\$")
    ensures FullMatches("\\$", "$x") && !WholeMatch("\\$", "$x")
  {
    EscapedDollarParses("\\$");
    hide Parse;
    hide EndsInEscapedDollar;
    var ps := [Piece(true, '$', Once)];
    var str := "$x";
    OneDollar(ps);
    assert str[0..1] == "$" && str[0..2] == str;
    assert MatchesAt(Parse("\\$").value, str, 0, 1);
  }

  lemma {:induction false} EscapedDollarParses(s: string)
    requires |s| == 2 && s[0] == '\\' && s[1] == '$'
    ensures Parse(s) == Some(Regex(false, Body([Piece(true, '$', Once)], false)))
    ensures EndsInEscapedDollar(s)
  {
    hide IsValidEscape;
    DollarIsPunct();
    var rest := s[2..];
    assert rest == "" && ParseBody(rest) == Some(Body([], false));
    var ps := [Piece(true, '$', Once)];
    assert ps + [] == ps && ParseTail(true, s[1], rest) == Some(Body(ps + [], false));
    assert ParseBody(s) == ParseTail(true, s[1], rest);
    hide ParseBody;
    hide ParseTail;
    var b := s[..1];
    assert b[..0] == "" && TrailingBackslashes(b) == 1;
  }

  lemma DollarIsPunct()
    ensures IsAsciiPunct('$') && IsValidEscape('$')
  {
  }

  lemma OneDollar(ps: seq<Piece>)
    requires ps == [Piece(true, '$', Once)]
    ensures PiecesMatch(ps, "$") && !PiecesMatch(ps, "$x")
  {
    hide IsAsciiPunct;
    DollarIsPunct();
    var s := "$";
    assert s[..1] == "$" && s[1..] == "" && ps[1..] == [];
    assert PieceMatches(ps[0], s[..1]) && PiecesMatch(ps[1..], s[1..]);
    if PiecesMatch(ps, "$x") {
      LastPieceDollar(ps, "$x");
    }
  }
}
