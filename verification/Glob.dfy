// Glob patterns over byte strings: compiling a pattern into segments, matching a key
// against them, and the literal prefix that narrows a scan.
module Glob {
  import opened Common

  const STAR: Byte := 42       // *
  const QUESTION: Byte := 63   // ?
  const OPEN: Byte := 91       // [
  const CLOSE: Byte := 93      // ]
  const BACKSLASH: Byte := 92
  const CARET: Byte := 94      // ^
  const BANG: Byte := 33       // !
  const DASH: Byte := 45       // -

  datatype Segment =
    | Literal(text: Str)
    | Star
    | Double
    | Question
    | Charset(chars: Str, negated: bool)

  datatype Pattern = Pattern(raw: Str, prefix: Str, segments: seq<Segment>, hasDouble: bool)

  datatype Error = EmptyPattern | UnmatchedBrace

  datatype Compiled<+T> = Ok(value: T) | Err(error: Error)

  predicate Special(c: Byte) { c == STAR || c == QUESTION || c == OPEN }

  // ----- what matching means -----

  predicate Fits(seg: Segment, piece: Str) {
    match seg
    case Literal(text) => piece == text
    case Star => true
    case Double => true
    case Question => |piece| == 1
    case Charset(chars, negated) => |piece| == 1 && (piece[0] in chars) != negated
  }

  function Join(pieces: seq<Str>): Str {
    if pieces == [] then [] else pieces[0] + Join(pieces[1..])
  }

  // The key splits into consecutive pieces that fit the segments in order.
  ghost predicate Splits(segs: seq<Segment>, key: Str) {
    exists pieces: seq<Str> :: Splitting(segs, key, pieces)
  }

  ghost predicate Splitting(segs: seq<Segment>, key: Str, pieces: seq<Str>) {
    |pieces| == |segs| && Join(pieces) == key && forall i :: 0 <= i < |segs| ==> Fits(segs[i], pieces[i])
  }

  // The same, one segment at a time.
  ghost predicate Matches(segs: seq<Segment>, key: Str) {
    if segs == [] then key == []
    else exists n :: 0 <= n <= |key| && Fits(segs[0], key[..n]) && Matches(segs[1..], key[n..])
  }

  lemma MatchesIsSplits(segs: seq<Segment>, key: Str)
    ensures Matches(segs, key) <==> Splits(segs, key)
  {
    if Matches(segs, key) { SplitOfMatch(segs, key); }
    if Splits(segs, key) {
      var pieces :| Splitting(segs, key, pieces);
      MatchOfSplit(segs, key, pieces);
    }
  }

  lemma {:induction false} SplitOfMatch(segs: seq<Segment>, key: Str)
    requires Matches(segs, key)
    ensures Splits(segs, key)
    decreases |segs|
  {
    if segs == [] {
      assert Splitting(segs, key, []);
    } else {
      var n :| 0 <= n <= |key| && Fits(segs[0], key[..n]) && Matches(segs[1..], key[n..]);
      SplitOfMatch(segs[1..], key[n..]);
      var rest :| Splitting(segs[1..], key[n..], rest);
      SplittingCons(segs, key, n, rest);
    }
  }

  lemma SplittingCons(segs: seq<Segment>, key: Str, n: nat, rest: seq<Str>)
    requires segs != [] && n <= |key| && Fits(segs[0], key[..n]) && Splitting(segs[1..], key[n..], rest)
    ensures Splitting(segs, key, [key[..n]] + rest)
  {
    var pieces := [key[..n]] + rest;
    assert pieces[1..] == rest;
    forall i | 0 <= i < |segs| ensures Fits(segs[i], pieces[i]) {
      if i > 0 { assert Fits(segs[1..][i - 1], rest[i - 1]); }
    }
  }

  lemma {:induction false} MatchOfSplit(segs: seq<Segment>, key: Str, pieces: seq<Str>)
    requires Splitting(segs, key, pieces)
    ensures Matches(segs, key)
    decreases |segs|
  {
    if segs != [] {
      var n := |pieces[0]|;
      assert key[..n] == pieces[0] && key[n..] == Join(pieces[1..]);
      forall i | 0 <= i < |segs| - 1 ensures Fits(segs[1..][i], pieces[1..][i]) {
        assert Fits(segs[i + 1], pieces[i + 1]);
      }
      MatchOfSplit(segs[1..], key[n..], pieces[1..]);
      assert Fits(segs[0], key[..n]);
    }
  }

  // ----- the matcher -----

  // matchSegments: recursion over the segments, with a search loop for the stars.
  method MatchSegments(segs: seq<Segment>, key: Str, keyPos: nat, segIdx: nat) returns (matched: bool)
    requires keyPos <= |key| && segIdx <= |segs|
    ensures matched <==> Matches(segs[segIdx..], key[keyPos..])
    decreases |segs| - segIdx, 1
  {
    if segIdx >= |segs| {
      assert segs[segIdx..] == [];
      return keyPos == |key|;
    }
    hide Matches, Fits;
    if segs[segIdx].Star? || segs[segIdx].Double? {
      matched := MatchStar(segs, key, keyPos, segIdx);
      return;
    }
    FixedLength(segs, segIdx, key, keyPos);
    var here := FitsAt(segs[segIdx], key, keyPos);
    if !here { return false; }
    matched := MatchSegments(segs, key, keyPos + Width(segs[segIdx]), segIdx + 1);
  }

  // How many bytes a segment other than a star takes.
  function Width(seg: Segment): nat {
    if seg.Literal? then |seg.text| else 1
  }

  // The literal, single-byte and charset cases: does the segment fit the key here?
  method FitsAt(seg: Segment, key: Str, keyPos: nat) returns (here: bool)
    requires keyPos <= |key| && !seg.Star? && !seg.Double?
    ensures here <==> keyPos + Width(seg) <= |key| && Fits(seg, key[keyPos..keyPos + Width(seg)])
  {
    match seg {
      case Literal(text) =>
        if keyPos + |text| > |key| { return false; }
        here := key[keyPos..keyPos + |text|] == text;
      case Question =>
        here := keyPos < |key|;
      case Charset(chars, negated) =>
        if keyPos >= |key| { return false; }
        var inSet := key[keyPos] in chars;
        if negated { inSet := !inSet; }
        here := inSet;
    }
  }

  // The search loop of a star: zero bytes first, then progressively more.
  method MatchStar(segs: seq<Segment>, key: Str, keyPos: nat, segIdx: nat) returns (matched: bool)
    requires keyPos <= |key| && segIdx < |segs| && (segs[segIdx].Star? || segs[segIdx].Double?)
    ensures matched <==> Matches(segs[segIdx..], key[keyPos..])
    decreases |segs| - segIdx, 0
  {
    hide Matches;
    var i := keyPos;
    while i <= |key|
      invariant keyPos <= i <= |key| + 1
      invariant forall j :: keyPos <= j < i ==> !Matches(segs[segIdx + 1..], key[j..])
    {
      var m := MatchSegments(segs, key, i, segIdx + 1);
      if m {
        StarAt(segs, segIdx, key, keyPos, i);
        return true;
      }
      i := i + 1;
    }
    StarNowhere(segs, segIdx, key, keyPos);
    matched := false;
  }

  // A segment of fixed width leaves one way to split.
  lemma FixedLength(segs: seq<Segment>, segIdx: nat, key: Str, keyPos: nat)
    requires segIdx < |segs| && keyPos <= |key| && !segs[segIdx].Star? && !segs[segIdx].Double?
    ensures var len := Width(segs[segIdx]);
      Matches(segs[segIdx..], key[keyPos..]) <==>
        keyPos + len <= |key| && Fits(segs[segIdx], key[keyPos..keyPos + len]) &&
          Matches(segs[segIdx + 1..], key[keyPos + len..])
  {
    var len := Width(segs[segIdx]);
    assert segs[segIdx..][1..] == segs[segIdx + 1..] && segs[segIdx..] == [segs[segIdx]] + segs[segIdx + 1..];
    MatchesFixed(segs[segIdx], segs[segIdx + 1..], key[keyPos..], len);
    if keyPos + len <= |key| {
      assert key[keyPos..][..len] == key[keyPos..keyPos + len] && key[keyPos..][len..] == key[keyPos + len..];
    }
  }

  lemma StarAt(segs: seq<Segment>, segIdx: nat, key: Str, keyPos: nat, i: nat)
    requires segIdx < |segs| && keyPos <= i <= |key| && (segs[segIdx].Star? || segs[segIdx].Double?)
    requires Matches(segs[segIdx + 1..], key[i..])
    ensures Matches(segs[segIdx..], key[keyPos..])
  {
    assert segs[segIdx..][1..] == segs[segIdx + 1..];
    assert key[keyPos..][i - keyPos..] == key[i..];
    assert Fits(segs[segIdx..][0], key[keyPos..][..i - keyPos]);
  }

  lemma StarNowhere(segs: seq<Segment>, segIdx: nat, key: Str, keyPos: nat)
    requires segIdx < |segs| && keyPos <= |key|
    requires forall j :: keyPos <= j <= |key| ==> !Matches(segs[segIdx + 1..], key[j..])
    ensures !Matches(segs[segIdx..], key[keyPos..])
  {
    assert segs[segIdx..][1..] == segs[segIdx + 1..];
    forall n | 0 <= n <= |key| - keyPos ensures !Matches(segs[segIdx + 1..], key[keyPos..][n..]) {
      assert key[keyPos..][n..] == key[keyPos + n..];
    }
  }

  // ----- the meaning of a pattern, read directly off its text -----

  // A backslash escapes the next byte, if there is one.
  predicate Escape(p: Str) { |p| >= 2 && p[0] == BACKSLASH }

  function Unescape(s: Str): Str
    decreases |s|
  {
    if s == [] then []
    else if Escape(s) then [s[1]] + Unescape(s[2..])
    else [s[0]] + Unescape(s[1..])
  }

  // extractPrefix: the literal text before the first wildcard.
  function ExtractPrefix(p: Str): Str
    decreases |p|
  {
    if p == [] || Special(p[0]) then []
    else if Escape(p) then [p[1]] + ExtractPrefix(p[2..])
    else [p[0]] + ExtractPrefix(p[1..])
  }

  // ----- the range loop -----

  // The state of the loop that writes the bytes from lo to hi: its counter, a byte that wraps
  // from 255 to 0, and what it has written.
  datatype Writing = Writing(c: Byte, written: Str)

  function Turn(w: Writing, hi: Byte): Writing {
    if w.c <= hi then Writing((w.c + 1) % 256, w.written + [w.c]) else w
  }

  function Turns(lo: Byte, hi: Byte, n: nat): Writing {
    if n == 0 then Writing(lo, []) else Turn(Turns(lo, hi, n - 1), hi)
  }

  // Some turn finds the condition c <= hi false.
  ghost predicate Ends(lo: Byte, hi: Byte) {
    exists n: nat :: Turns(lo, hi, n).c > hi
  }

  function Range(lo: Byte, hi: Byte): Str
    requires lo <= hi
  {
    seq(hi - lo + 1, i requires 0 <= i < hi - lo + 1 => lo + i)
  }

  // Up to the wrap the loop has written the bytes from lo on.
  lemma {:induction false} TurnsCount(lo: Byte, hi: Byte, n: nat)
    requires lo <= hi && n <= hi - lo + 1
    ensures var w := Turns(lo, hi, n); w.c == (lo + n) % 256 && w.written == Range(lo, hi)[..n]
  {
    if n > 0 { TurnsCount(lo, hi, n - 1); }
  }

  // With 255 for its end the loop never stops writing.
  lemma {:induction false} TurnsForever(lo: Byte, n: nat)
    ensures |Turns(lo, 255, n).written| == n
  {
    if n > 0 { TurnsForever(lo, n - 1); }
  }

  // The loop ends exactly when its last byte is below 255.
  lemma EndsExactly(lo: Byte, hi: Byte)
    requires lo <= hi
    ensures Ends(lo, hi) <==> hi < 255
  {
    if hi < 255 {
      TurnsCount(lo, hi, hi - lo + 1);
      assert Turns(lo, hi, hi - lo + 1).c > hi;
    }
  }

  // ----- character sets -----

  function Low(p: Str): Byte
    requires |p| >= 3
  {
    if p[0] > p[2] then p[2] else p[0]
  }

  function High(p: Str): Byte
    requires |p| >= 3
  {
    if p[0] > p[2] then p[0] else p[2]
  }

  predicate IsRange(p: Str) { |p| >= 3 && p[1] == DASH && p[2] != CLOSE }

  // Whether the set whose items p starts with contains c: an escaped byte, the bytes of a
  // range, or a byte as it stands.
  predicate Member(p: Str, c: Byte)
    decreases |p|
  {
    && p != [] && p[0] != CLOSE
    && (if Escape(p) then c == p[1] || Member(p[2..], c)
        else if IsRange(p) then Low(p) <= c <= High(p) || Member(p[3..], c)
        else c == p[0] || Member(p[1..], c))
  }

  // What follows the closing bracket of that set.
  function AfterClose(p: Str): (r: Option<Str>)
    ensures r.Some? ==> |r.value| < |p|
    decreases |p|
  {
    if p == [] then None
    else if p[0] == CLOSE then Some(p[1..])
    else if Escape(p) then AfterClose(p[2..])
    else if IsRange(p) then AfterClose(p[3..])
    else AfterClose(p[1..])
  }

  // The body of a [charset] as it is parsed, after the bracket and the negation sign.
  // `Endless` is a range loop that does not end.
  datatype Body = Body(chars: Str, rest: Str) | Unclosed | Endless

  function Widen(chars: Str, b: Body): Body {
    if b.Body? then Body(chars + b.chars, b.rest) else b
  }

  ghost function CharsetBody(p: Str): (b: Body)
    ensures b.Body? ==> |b.rest| < |p|
    decreases |p|
  {
    if p == [] then Unclosed
    else if p[0] == CLOSE then Body([], p[1..])
    else if Escape(p) then Widen([p[1]], CharsetBody(p[2..]))
    else if IsRange(p) then
      if !Ends(Low(p), High(p)) then Endless else Widen(Range(Low(p), High(p)), CharsetBody(p[3..]))
    else Widen([p[0]], CharsetBody(p[1..]))
  }

  // The bytes parsed out of a set are its members.
  lemma {:induction false} CharsAreMembers(p: Str)
    ensures CharsetBody(p).Body? ==>
      AfterClose(p) == Some(CharsetBody(p).rest) && forall c: Byte :: c in CharsetBody(p).chars <==> Member(p, c)
    ensures CharsetBody(p).Unclosed? ==> AfterClose(p).None?
    decreases |p|
  {
    hide Ends;
    if p == [] || p[0] == CLOSE {
    } else if Escape(p) {
      CharsAreMembers(p[2..]);
    } else if IsRange(p) {
      CharsAreMembers(p[3..]);
      InRange(Low(p), High(p));
    } else {
      CharsAreMembers(p[1..]);
    }
  }

  lemma InRange(lo: Byte, hi: Byte)
    requires lo <= hi
    ensures forall c: Byte :: c in Range(lo, hi) <==> lo <= c <= hi
  {
    forall c: Byte | lo <= c <= hi ensures c in Range(lo, hi) { assert Range(lo, hi)[c - lo] == c; }
  }

  predicate Negation(p: Str) { p != [] && (p[0] == CARET || p[0] == BANG) }

  // The items of the charset of a pattern that starts with an opening bracket.
  function Items(p: Str): (q: Str)
    requires p != []
    ensures |q| < |p|
  {
    if Negation(p[1..]) then p[2..] else p[1..]
  }

  ghost function CharsetOf(p: Str): (b: Body)
    requires p != []
    ensures b.Body? ==> |b.rest| < |p|
  {
    CharsetBody(Items(p))
  }

  // Whether the pattern text p describes the key k.
  ghost predicate Describes(p: Str, k: Str)
    decreases |p|, |k|
  {
    if p == [] then k == []
    else if p[0] == STAR then Describes(p[1..], k) || (k != [] && Describes(p, k[1..]))
    else if k == [] then false
    else if p[0] == QUESTION then Describes(p[1..], k[1..])
    else if p[0] == OPEN then
      var rest := AfterClose(Items(p));
      rest.Some? && Member(Items(p), k[0]) != Negation(p[1..]) && Describes(rest.value, k[1..])
    else if Escape(p) then k[0] == p[1] && Describes(p[2..], k[1..])
    else k[0] == p[0] && Describes(p[1..], k[1..])
  }

  // Every key a pattern describes starts with the pattern's literal prefix.
  lemma {:induction false} PrefixOfDescribed(p: Str, k: Str)
    requires Describes(p, k)
    ensures IsPrefix(ExtractPrefix(p), k)
    decreases |p|
  {
    if p != [] && !Special(p[0]) {
      var rest := if Escape(p) then p[2..] else p[1..];
      PrefixOfDescribed(rest, k[1..]);
      assert k == [k[0]] + k[1..];
    }
  }

  // ----- compilation as a function -----

  // The length of the run of literal text at the front.
  function LiteralLen(p: Str): (n: nat)
    ensures n <= |p|
    decreases |p|
  {
    if p == [] || Special(p[0]) then 0
    else if Escape(p) then 2 + LiteralLen(p[2..])
    else 1 + LiteralLen(p[1..])
  }

  datatype Parsed = Parsed(segments: seq<Segment>) | Unmatched | Stuck

  function Cons(seg: Segment, rest: Parsed): Parsed {
    if rest.Parsed? then Parsed([seg] + rest.segments) else rest
  }

  ghost function Parse(p: Str): Parsed
    decreases |p|
  {
    if p == [] then Parsed([])
    else if p[0] == STAR then
      if |p| >= 2 && p[1] == STAR then Cons(Double, Parse(p[2..])) else Cons(Star, Parse(p[1..]))
    else if p[0] == QUESTION then Cons(Question, Parse(p[1..]))
    else if p[0] == OPEN then
      match CharsetOf(p)
      case Body(chars, rest) => Cons(Charset(chars, Negation(p[1..])), Parse(rest))
      case Unclosed => Unmatched
      case Endless => Stuck
    else
      var n := LiteralLen(p);
      if n == 0 then Parsed([]) else Cons(Literal(Unescape(p[..n])), Parse(p[n..]))
  }

  // The first byte of literal text and what follows it, an escape counting as one byte.
  function HeadOf(p: Str): Byte
    requires p != []
  {
    if Escape(p) then p[1] else p[0]
  }

  function TailOf(p: Str): Str
    requires p != []
  {
    if Escape(p) then p[2..] else p[1..]
  }

  lemma LiteralStep(p: Str, k: Str)
    requires p != [] && !Special(p[0])
    ensures Describes(p, k) <==> k != [] && k[0] == HeadOf(p) && Describes(TailOf(p), k[1..])
    ensures LiteralLen(p) == |p| - |TailOf(p)| + LiteralLen(TailOf(p))
    ensures Unescape(p[..LiteralLen(p)]) == [HeadOf(p)] + Unescape(TailOf(p)[..LiteralLen(TailOf(p))])
    ensures p[LiteralLen(p)..] == TailOf(p)[LiteralLen(TailOf(p))..]
  {
    var n := LiteralLen(p);
    var step := if Escape(p) then 2 else 1;
    var q := p[..n];
    assert q[step..] == TailOf(p)[..n - step];
    assert q != [] && q[0] == p[0];
    if Escape(p) {
      assert Escape(q) && q[1] == p[1];
    } else {
      assert !Escape(q);
    }
  }

  lemma {:induction false} LiteralRun(p: Str, k: Str)
    ensures var text := Unescape(p[..LiteralLen(p)]);
      Describes(p, k) <==> IsPrefix(text, k) && Describes(p[LiteralLen(p)..], k[|text|..])
    decreases |p|
  {
    if p == [] || Special(p[0]) {
      assert p[..0] == [] && p[0..] == p && k[0..] == k;
    } else {
      hide Describes, LiteralLen, Unescape;
      LiteralStep(p, k);
      if k != [] {
        LiteralRun(TailOf(p), k[1..]);
        PrefixCons(HeadOf(p), Unescape(TailOf(p)[..LiteralLen(TailOf(p))]), k);
      }
    }
  }

  lemma PrefixCons(c: Byte, t: Str, k: Str)
    requires k != []
    ensures IsPrefix([c] + t, k) <==> k[0] == c && IsPrefix(t, k[1..])
    ensures IsPrefix([c] + t, k) ==> k[|[c] + t|..] == k[1..][|t|..]
  {
    if IsPrefix([c] + t, k) {
      assert ([c] + t)[0] == c && ([c] + t)[1..] == t;
    }
    if k[0] == c && IsPrefix(t, k[1..]) {
      assert k == [k[0]] + k[1..];
    }
  }

  // What each kind of segment in front means for matching.
  lemma MatchesFixed(seg: Segment, segs: seq<Segment>, k: Str, len: nat)
    requires forall piece :: Fits(seg, piece) ==> |piece| == len
    ensures Matches([seg] + segs, k) <==> len <= |k| && Fits(seg, k[..len]) && Matches(segs, k[len..])
  {
    assert ([seg] + segs)[1..] == segs;
  }

  lemma MatchesStar(seg: Segment, segs: seq<Segment>, k: Str)
    requires seg.Star? || seg.Double?
    ensures Matches([seg] + segs, k) <==> Matches(segs, k) || (k != [] && Matches([seg] + segs, k[1..]))
  {
    var all := [seg] + segs;
    assert all[1..] == segs;
    if Matches(all, k) && !Matches(segs, k) {
      var n :| 0 <= n <= |k| && Matches(segs, k[n..]);
      assert k[0..] == k;
      assert k[1..][n - 1..] == k[n..];
      assert Fits(seg, k[1..][..n - 1]);
    }
    if Matches(segs, k) { assert k[0..] == k && Fits(seg, k[..0]); }
    if k != [] && Matches(all, k[1..]) {
      var n :| 0 <= n <= |k[1..]| && Matches(segs, k[1..][n..]);
      assert k[1..][n..] == k[n + 1..] && Fits(seg, k[..n + 1]);
    }
  }

  // Compiling keeps the meaning: the segments match exactly the keys the text describes.
  lemma {:induction false} ParseKeepsMeaning(p: Str, k: Str)
    requires Parse(p).Parsed?
    ensures Matches(Parse(p).segments, k) <==> Describes(p, k)
    decreases |p|, |k|
  {
    if p == [] {
    } else if p[0] == STAR {
      StarKeepsMeaning(p, k);
    } else if p[0] == QUESTION {
      MatchesFixed(Question, Parse(p[1..]).segments, k, 1);
      if k != [] { ParseKeepsMeaning(p[1..], k[1..]); }
    } else if p[0] == OPEN {
      CharsAreMembers(Items(p));
      var b := CharsetOf(p);
      var seg := Charset(b.chars, Negation(p[1..]));
      MatchesFixed(seg, Parse(b.rest).segments, k, 1);
      if k != [] { ParseKeepsMeaning(b.rest, k[1..]); }
    } else {
      LiteralKeepsMeaning(p, k);
    }
  }

  lemma LiteralKeepsMeaning(p: Str, k: Str)
    requires Parse(p).Parsed? && p != [] && !Special(p[0])
    ensures Matches(Parse(p).segments, k) <==> Describes(p, k)
    decreases |p|, |k|, 0
  {
    var n := LiteralLen(p);
    var text := Unescape(p[..n]);
    LiteralStep(p, k);
    assert n > 0;
    hide Describes, LiteralLen, Unescape;
    LiteralRun(p, k);
    MatchesFixed(Literal(text), Parse(p[n..]).segments, k, |text|);
    if |text| <= |k| { ParseKeepsMeaning(p[n..], k[|text|..]); }
  }

  // "**" and "*" mean the same; two adjacent stars describe what one does.
  lemma StarKeepsMeaning(p: Str, k: Str)
    requires Parse(p).Parsed? && p != [] && p[0] == STAR
    ensures Matches(Parse(p).segments, k) <==> Describes(p, k)
    decreases |p|, |k|, 0
  {
    if |p| >= 2 && p[1] == STAR {
      forall x { ParseKeepsMeaning(p[2..], x); }
      StarOver(p[1..], Double, Parse(p[2..]).segments, k);
      TwoStars(p, k);
    } else {
      forall x { ParseKeepsMeaning(p[1..], x); }
      StarOver(p, Star, Parse(p[1..]).segments, k);
    }
  }

  lemma {:induction false} StarOver(p: Str, seg: Segment, segs: seq<Segment>, k: Str)
    requires p != [] && p[0] == STAR && (seg.Star? || seg.Double?)
    requires forall x :: Matches(segs, x) <==> Describes(p[1..], x)
    ensures Matches([seg] + segs, k) <==> Describes(p, k)
    decreases |k|
  {
    MatchesStar(seg, segs, k);
    if k != [] { StarOver(p, seg, segs, k[1..]); }
  }

  lemma {:induction false} TwoStars(p: Str, k: Str)
    requires |p| >= 2 && p[0] == STAR && p[1] == STAR
    ensures Describes(p, k) <==> Describes(p[1..], k)
    decreases |k|
  {
    if k != [] { TwoStars(p, k[1..]); }
  }

  // Narrowing a scan to the keys under the pattern's prefix loses no match.
  lemma PrefixLosesNoMatch(p: Str, k: Str)
    requires Parse(p).Parsed? && Splits(Parse(p).segments, k)
    ensures IsPrefix(ExtractPrefix(p), k)
  {
    MatchesIsSplits(Parse(p).segments, k);
    ParseKeepsMeaning(p, k);
    PrefixOfDescribed(p, k);
  }

  // A range with byte 255 at either end is open to view: one pass over the text, which only
  // needs to know whether it is inside a character set, finds the first one.
  predicate HasRangeTo255(p: Str, inSet: bool)
    decreases |p|
  {
    if p == [] then false
    else if !inSet && p[0] == OPEN then
      HasRangeTo255(Items(p), true)
    else if inSet && p[0] == CLOSE then HasRangeTo255(p[1..], false)
    else if Escape(p) then HasRangeTo255(p[2..], inSet)
    else if inSet && IsRange(p) then
      p[0] == 255 || p[2] == 255 || HasRangeTo255(p[3..], true)
    else HasRangeTo255(p[1..], inSet)
  }

  // Compilation fails to terminate exactly on the patterns with such a range.
  lemma {:induction false} StuckExactly(p: Str)
    ensures Parse(p).Stuck? <==> HasRangeTo255(p, false)
    decreases |p|
  {
    if p == [] {
    } else if p[0] == OPEN {
      EndlessExactly(Items(p));
      var b := CharsetOf(p);
      if b.Body? { StuckExactly(b.rest); }
    } else if p[0] == STAR && |p| >= 2 && p[1] == STAR {
      StuckExactly(p[2..]);
      assert p[1..][1..] == p[2..];
      assert HasRangeTo255(p[1..], false) == HasRangeTo255(p[2..], false);
    } else if Special(p[0]) {
      StuckExactly(p[1..]);
    } else {
      ScanLiteral(p);
      StuckExactly(p[LiteralLen(p)..]);
    }
  }

  lemma {:induction false} EndlessExactly(p: Str)
    ensures HasRangeTo255(p, true) <==>
      CharsetBody(p).Endless? || (CharsetBody(p).Body? && HasRangeTo255(CharsetBody(p).rest, false))
    decreases |p|
  {
    if p != [] && p[0] != CLOSE {
      if Escape(p) { EndlessExactly(p[2..]); }
      else if IsRange(p) { EndlessExactly(p[3..]); EndsExactly(Low(p), High(p)); }
      else { EndlessExactly(p[1..]); }
    }
  }

  lemma {:induction false} ScanLiteral(p: Str)
    ensures HasRangeTo255(p, false) <==> HasRangeTo255(p[LiteralLen(p)..], false)
    decreases |p|
  {
    if p != [] && !Special(p[0]) {
      var q := TailOf(p);
      ScanLiteral(q);
      assert p[LiteralLen(p)..] == q[LiteralLen(q)..];
    }
  }

  // "[a-\xff]" never finishes compiling: its range loop goes on writing.
  lemma RangeTo255IsStuck()
    ensures Parse([OPEN, 97, DASH, 255, CLOSE]) == Stuck && HasRangeTo255([OPEN, 97, DASH, 255, CLOSE], false)
    ensures forall n: nat :: Turns(97, 255, n).c <= 255 && |Turns(97, 255, n).written| == n
  {
    var p: Str := [OPEN, 97, DASH, 255, CLOSE];
    assert Items(p) == [97, DASH, 255, CLOSE];
    EndsExactly(97, 255);
    forall n: nat { TurnsForever(97, n); }
  }

  // ----- the compiler's loops -----

  method DoExtractPrefix(pattern: Str) returns (prefix: Str)
    ensures prefix == ExtractPrefix(pattern)
  {
    prefix := [];
    var i := 0;
    while i < |pattern|
      invariant 0 <= i <= |pattern|
      invariant prefix + ExtractPrefix(pattern[i..]) == ExtractPrefix(pattern)
    {
      var c := pattern[i];
      ghost var t := pattern[i..];
      assert i + 1 < |pattern| ==> t[2..] == pattern[i + 2..];
      assert t[1..] == pattern[i + 1..];
      if Special(c) { break; }
      if c == BACKSLASH && i + 1 < |pattern| {
        prefix := prefix + [pattern[i + 1]];
        i := i + 2;
      } else {
        prefix := prefix + [c];
        i := i + 1;
      }
    }
  }

  lemma UnescapeStep(s: Str, i: nat)
    requires i < |s|
    ensures var step := if Escape(s[i..]) then 2 else 1;
      i + step <= |s| && Unescape(s[i..]) == [HeadOf(s[i..])] + Unescape(s[i + step..])
  {
    var t := s[i..];
    assert Escape(t) ==> t[2..] == s[i + 2..];
    assert t[1..] == s[i + 1..];
  }

  method DoUnescape(s: Str) returns (result: Str)
    ensures result == Unescape(s)
  {
    result := [];
    var i := 0;
    ghost var whole := Unescape(s);
    assert s[0..] == s && Unescape([]) == [];
    hide Unescape;
    while i < |s|
      invariant 0 <= i <= |s|
      invariant result + Unescape(s[i..]) == whole
    {
      UnescapeStep(s, i);
      if s[i] == BACKSLASH && i + 1 < |s| {
        result := result + [s[i + 1]];
        i := i + 2;
      } else {
        result := result + [s[i]];
        i := i + 1;
      }
    }
    assert s[i..] == [];
  }

  // parseCharset: the charset that starts at position `at`, and where it ends.
  method ParseCharset(pattern: Str, at: nat) returns (r: Compiled<(Str, bool, nat)>)
    requires at < |pattern| && pattern[at] == OPEN && !CharsetOf(pattern[at..]).Endless?
    ensures match CharsetOf(pattern[at..])
      case Body(chars, rest) =>
        r.Ok? && at < r.value.2 <= |pattern| && rest == pattern[r.value.2..]
        && r.value.0 == chars && r.value.1 == Negation(pattern[at + 1..])
      case _ => r == Err(UnmatchedBrace)
  {
    hide Negation;
    var i := at + 1;
    assert pattern[at..][1..] == pattern[i..];
    var negated := Negation(pattern[i..]);
    if negated {
      NegationHasByte(pattern[i..]);
      assert pattern[at..][2..] == pattern[i + 1..];
      i := i + 1;
    }
    var start := i;
    var charset: Str := [];
    ghost var whole := CharsetBody(pattern[start..]);
    assert whole == CharsetOf(pattern[at..]);
    while i < |pattern| && pattern[i] != CLOSE
      invariant start <= i <= |pattern|
      invariant Widen(charset, CharsetBody(pattern[i..])) == whole
    {
      charset, i := CharsetItem(pattern, i, charset);
    }
    if i >= |pattern| {
      return Err(UnmatchedBrace);
    }
    assert pattern[i..][1..] == pattern[i + 1..];
    r := Ok((charset, negated, i + 1));
  }

  lemma NegationHasByte(p: Str)
    ensures Negation(p) ==> p != []
  {
  }

  // One item of a charset: an escaped byte, a range, or a byte.
  method CharsetItem(pattern: Str, i: nat, charset: Str) returns (c: Str, j: nat)
    requires i < |pattern| && pattern[i] != CLOSE && !CharsetBody(pattern[i..]).Endless?
    ensures i < j <= |pattern|
    ensures Widen(c, CharsetBody(pattern[j..])) == Widen(charset, CharsetBody(pattern[i..]))
  {
    ghost var p := pattern[i..];
    if pattern[i] == BACKSLASH && i + 1 < |pattern| {
      assert p[2..] == pattern[i + 2..];
      return charset + [pattern[i + 1]], i + 2;
    }
    if i + 2 < |pattern| && pattern[i + 1] == DASH && pattern[i + 2] != CLOSE {
      var lo, hi := pattern[i], pattern[i + 2];
      if lo > hi { lo, hi := hi, lo; }
      assert p[3..] == pattern[i + 3..];
      var range := RangeBytes(lo, hi);
      return charset + range, i + 3;
    }
    assert p[1..] == pattern[i + 1..];
    return charset + [pattern[i]], i + 1;
  }

  // The range loop, on the patterns for which it ends.
  method RangeBytes(lo: Byte, hi: Byte) returns (r: Str)
    requires lo <= hi && Ends(lo, hi)
    ensures r == Range(lo, hi)
  {
    EndsExactly(lo, hi);
    r := [];
    var c: Byte := lo;
    while c <= hi
      invariant lo <= c <= hi + 1
      invariant Writing(c, r) == Turns(lo, hi, c - lo)
    {
      r := r + [c];
      c := (c + 1) % 256;
    }
    TurnsCount(lo, hi, c - lo);
  }

  function PrependAll(segs: seq<Segment>, rest: Parsed): Parsed {
    if rest.Parsed? then Parsed(segs + rest.segments) else rest
  }

  // What Compile returns for a pattern on which it terminates.
  ghost function CompileResult(pattern: Str): Compiled<Pattern>
    requires !Parse(pattern).Stuck?
  {
    if pattern == [] then Err(EmptyPattern)
    else match Parse(pattern)
      case Parsed(segs) => Ok(Pattern(pattern, ExtractPrefix(pattern), segs, Double in segs))
      case _ => Err(UnmatchedBrace)
  }

  method Compile(pattern: Str) returns (r: Compiled<Pattern>)
    requires !Parse(pattern).Stuck?
    ensures r == CompileResult(pattern)
  {
    if pattern == [] { return Err(EmptyPattern); }
    var prefix := DoExtractPrefix(pattern);
    var segments: seq<Segment>, hasDouble := [], false;
    var i := 0;
    ghost var whole := Parse(pattern);
    ParseEnd();
    PrependNone(whole);
    assert pattern[0..] == pattern;
    hide Parse, ExtractPrefix;
    while i < |pattern|
      invariant 0 <= i <= |pattern|
      invariant PrependAll(segments, Parse(pattern[i..])) == whole
      invariant hasDouble == (Double in segments)
    {
      var step := NextSegment(pattern, i);
      if step.Err? { return Err(step.error); }
      PrependMore(segments, step.value.0, Parse(pattern[step.value.1..]));
      segments := segments + [step.value.0];
      hasDouble := hasDouble || step.value.0.Double?;
      i := step.value.1;
    }
    assert pattern[i..] == [] && segments + [] == segments;
    r := Ok(Pattern(pattern, prefix, segments, hasDouble));
  }

  lemma ParseEnd()
    ensures Parse([]) == Parsed([])
  {
  }

  lemma PrependNone(rest: Parsed)
    ensures PrependAll([], rest) == rest
  {
    if rest.Parsed? { assert [] + rest.segments == rest.segments; }
  }

  lemma PrependMore(segs: seq<Segment>, seg: Segment, rest: Parsed)
    ensures PrependAll(segs, Cons(seg, rest)) == PrependAll(segs + [seg], rest)
  {
    if rest.Parsed? { assert segs + ([seg] + rest.segments) == segs + [seg] + rest.segments; }
  }

  // One turn of Compile's loop: the segment at position i and where the next one starts.
  method NextSegment(pattern: Str, i: nat) returns (r: Compiled<(Segment, nat)>)
    requires i < |pattern| && !Parse(pattern[i..]).Stuck?
    ensures r.Err? ==> r.error == UnmatchedBrace && Parse(pattern[i..]) == Unmatched
    ensures r.Ok? ==> i < r.value.1 <= |pattern| && Parse(pattern[i..]) == Cons(r.value.0, Parse(pattern[r.value.1..]))
  {
    ghost var p := pattern[i..];
    if pattern[i] == STAR {
      if i + 1 < |pattern| && pattern[i + 1] == STAR {
        assert p[2..] == pattern[i + 2..];
        return Ok((Double, i + 2));
      }
      assert p[1..] == pattern[i + 1..];
      return Ok((Star, i + 1));
    }
    if pattern[i] == QUESTION {
      assert p[1..] == pattern[i + 1..];
      return Ok((Question, i + 1));
    }
    if pattern[i] == OPEN {
      var cs := ParseCharset(pattern, i);
      assert p[1..] == pattern[i + 1..];
      if cs.Err? { return Err(cs.error); }
      return Ok((Charset(cs.value.0, cs.value.1), cs.value.2));
    }
    r := NextLiteral(pattern, i);
  }

  method NextLiteral(pattern: Str, i: nat) returns (r: Compiled<(Segment, nat)>)
    requires i < |pattern| && !Special(pattern[i])
    ensures r.Ok? && i < r.value.1 <= |pattern| && Parse(pattern[i..]) == Cons(r.value.0, Parse(pattern[r.value.1..]))
  {
    hide Parse;
    var j := i;
    ghost var p := pattern[i..];
    while j < |pattern| && !Special(pattern[j])
      invariant i <= j <= |pattern|
      invariant LiteralLen(p) == j - i + LiteralLen(pattern[j..])
    {
      if pattern[j] == BACKSLASH && j + 1 < |pattern| {
        assert pattern[j..][2..] == pattern[j + 2..];
        j := j + 2;
      } else {
        assert pattern[j..][1..] == pattern[j + 1..];
        j := j + 1;
      }
    }
    assert p[..j - i] == pattern[i..j] && p[j - i..] == pattern[j..];
    var text := DoUnescape(pattern[i..j]);
    ParseLiteral(p);
    r := Ok((Literal(text), j));
  }

  lemma ParseLiteral(p: Str)
    requires p != [] && !Special(p[0])
    ensures LiteralLen(p) > 0
    ensures Parse(p) == Cons(Literal(Unescape(p[..LiteralLen(p)])), Parse(p[LiteralLen(p)..]))
  {
  }

  // Match: compile and match in one call; the answer is what the pattern's text says.
  method Match(pattern: Str, key: Str) returns (r: Compiled<bool>)
    requires !Parse(pattern).Stuck?
    ensures r == (match CompileResult(pattern) case Err(e) => Err(e) case Ok(_) => Ok(r.Ok? && r.value))
    ensures r.Ok? ==> (r.value <==> Describes(pattern, key))
  {
    var compiled := Compile(pattern);
    match compiled {
      case Err(e) => return Err(e);
      case Ok(p) =>
        var matched := MatchSegments(p.segments, key, 0, 0);
        assert p.segments[0..] == p.segments && key[0..] == key;
        ParseKeepsMeaning(pattern, key);
        return Ok(matched);
    }
  }
}
