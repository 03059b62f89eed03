// Glob patterns as they are written: pieces with a meaning of their own, rendered in the
// characters of the pattern language.  What the text of a pattern describes is what its
// pieces mean.
module GlobText {
  import opened Common
  import opened Glob

  // What may stand in a character set.
  datatype Item =
    | Single(c: Byte)          // the byte itself
    | Quoted(c: Byte)          // a backslash and the byte
    | Span(x: Byte, y: Byte)   // a range, in either order

  datatype Sign = Plain | WithCaret | WithBang

  datatype Piece =
    | Text(c: Byte)            // the byte itself
    | Quote(c: Byte)           // a backslash and the byte
    | Any                      // ?
    | Many                     // *
    | OneOf(sign: Sign, items: seq<Item>)

  // The byte of a character.
  function Code(ch: char): Byte
    requires (ch as int) < 256
  {
    ch as int
  }

  predicate GoodItem(it: Item) {
    match it
    case Single(c) => c != Code(']') && c != Code('\\') && c != Code('-')
    case Quoted(_) => true
    case Span(x, y) => x != Code(']') && x != Code('\\') && x != Code('-') && y != Code(']')
  }

  // The first byte after the bracket would be read as a sign.
  predicate LooksSigned(items: seq<Item>) {
    items != [] && !items[0].Quoted? &&
    var c := if items[0].Single? then items[0].c else items[0].x;
    c == Code('^') || c == Code('!')
  }

  predicate Good(p: Piece) {
    match p
    case Text(c) => c != Code('*') && c != Code('?') && c != Code('[') && c != Code('\\')
    case OneOf(sign, items) =>
      (forall i :: 0 <= i < |items| ==> GoodItem(items[i])) && (sign.Plain? ==> !LooksSigned(items))
    case _ => true
  }

  predicate AllGood(ps: seq<Piece>) { forall i :: 0 <= i < |ps| ==> Good(ps[i]) }

  // ----- meaning -----

  predicate Covers(it: Item, c: Byte) {
    match it
    case Single(x) => c == x
    case Quoted(x) => c == x
    case Span(x, y) => x <= c <= y || y <= c <= x
  }

  predicate Includes(items: seq<Item>, c: Byte) {
    exists i :: 0 <= i < |items| && Covers(items[i], c)
  }

  // One byte fits a piece, other than Many.
  predicate FitsByte(p: Piece, c: Byte) {
    match p
    case Text(x) => c == x
    case Quote(x) => c == x
    case Any => true
    case Many => false
    case OneOf(sign, items) => if sign.Plain? then Includes(items, c) else !Includes(items, c)
  }

  ghost predicate Means(ps: seq<Piece>, k: Str)
    decreases |ps|
  {
    if ps == [] then k == []
    else if ps[0].Many? then exists i :: 0 <= i <= |k| && Means(ps[1..], k[i..])
    else k != [] && FitsByte(ps[0], k[0]) && Means(ps[1..], k[1..])
  }

  // ----- text -----

  function ItemText(it: Item): Str {
    match it
    case Single(c) => [c]
    case Quoted(c) => [Code('\\'), c]
    case Span(x, y) => [x, Code('-'), y]
  }

  function ItemsText(items: seq<Item>): Str {
    if items == [] then [] else ItemText(items[0]) + ItemsText(items[1..])
  }

  function SignText(sign: Sign): Str {
    match sign
    case Plain => []
    case WithCaret => [Code('^')]
    case WithBang => [Code('!')]
  }

  function PieceText(p: Piece): Str {
    match p
    case Text(c) => [c]
    case Quote(c) => [Code('\\'), c]
    case Any => [Code('?')]
    case Many => [Code('*')]
    case OneOf(sign, items) => [Code('[')] + SignText(sign) + ItemsText(items) + [Code(']')]
  }

  function TextOf(ps: seq<Piece>): Str {
    if ps == [] then [] else PieceText(ps[0]) + TextOf(ps[1..])
  }

  // ----- the text means what its pieces mean -----

  lemma {:induction false} SetText(items: seq<Item>, rest: Str, c: Byte)
    requires forall i :: 0 <= i < |items| ==> GoodItem(items[i])
    ensures var p := ItemsText(items) + [Code(']')] + rest;
      (Member(p, c) <==> Includes(items, c)) && AfterClose(p) == Some(rest)
  {
    var p := ItemsText(items) + [Code(']')] + rest;
    if items == [] {
      assert p[1..] == rest;
    } else {
      var q := ItemsText(items[1..]) + [Code(']')] + rest;
      SetText(items[1..], rest, c);
      assert p == ItemText(items[0]) + q;
      IncludesFirst(items, c);
      ItemStep(items[0], q, c);
    }
  }

  lemma IncludesFirst(items: seq<Item>, c: Byte)
    requires items != []
    ensures Includes(items, c) <==> Covers(items[0], c) || Includes(items[1..], c)
  {
    if i :| 0 <= i < |items| && Covers(items[i], c) {
      if i > 0 { assert Covers(items[1..][i - 1], c); }
    }
    if i :| 0 <= i < |items[1..]| && Covers(items[1..][i], c) {
      assert Covers(items[i + 1], c);
    }
  }

  // One item read off the front of a set that goes on with no dash.
  lemma ItemStep(it: Item, q: Str, c: Byte)
    requires GoodItem(it) && q != [] && q[0] != Code('-')
    ensures Member(ItemText(it) + q, c) <==> Covers(it, c) || Member(q, c)
    ensures AfterClose(ItemText(it) + q) == AfterClose(q)
  {
    var p := ItemText(it) + q;
    assert p[|ItemText(it)|..] == q;
  }

  // A set with its sign, read by the pattern language.
  lemma OneOfText(sign: Sign, items: seq<Item>, rest: Str, k: Str)
    requires Good(OneOf(sign, items))
    ensures Describes(PieceText(OneOf(sign, items)) + rest, k) <==>
      k != [] && FitsByte(OneOf(sign, items), k[0]) && Describes(rest, k[1..])
  {
    hide Member, AfterClose, Describes, ItemsText, Includes, Items, Negation;
    var p := PieceText(OneOf(sign, items)) + rest;
    SignRead(sign, items, rest);
    SetStep(p, k);
    if k != [] { SetText(items, rest, k[0]); }
  }

  lemma SetStep(p: Str, k: Str)
    requires p != [] && p[0] == Code('[')
    ensures Describes(p, k) <==>
      k != [] && AfterClose(Items(p)).Some? && Member(Items(p), k[0]) != Negation(p[1..]) &&
      Describes(AfterClose(Items(p)).value, k[1..])
  {
    hide Member, AfterClose, Items, Negation;
  }

  lemma SignRead(sign: Sign, items: seq<Item>, rest: Str)
    requires Good(OneOf(sign, items))
    ensures var p := PieceText(OneOf(sign, items)) + rest;
      && p != [] && p[0] == Code('[')
      && Items(p) == ItemsText(items) + [Code(']')] + rest
      && (Negation(p[1..]) <==> !sign.Plain?)
  {
    hide ItemsText;
    var body := ItemsText(items) + [Code(']')] + rest;
    var p := PieceText(OneOf(sign, items)) + rest;
    assert p == [Code('[')] + (SignText(sign) + body);
    assert p[1..] == SignText(sign) + body;
    if sign.Plain? {
      FirstOfItems(items, rest);
    } else {
      assert p[2..] == body;
    }
  }

  lemma FirstOfItems(items: seq<Item>, rest: Str)
    requires (forall i :: 0 <= i < |items| ==> GoodItem(items[i])) && !LooksSigned(items)
    ensures var p := ItemsText(items) + [Code(']')] + rest; p[0] != Code('^') && p[0] != Code('!')
  {
    if items != [] { assert ItemsText(items) == ItemText(items[0]) + ItemsText(items[1..]); }
  }

  // A star takes any stretch of the key.
  lemma {:induction false} ManyText(rest: Str, k: Str)
    ensures Describes([Code('*')] + rest, k) <==> exists i :: 0 <= i <= |k| && Describes(rest, k[i..])
    decreases |k|
  {
    var p := [Code('*')] + rest;
    assert p[1..] == rest && k[0..] == k;
    if k != [] {
      ManyText(rest, k[1..]);
      forall i | 1 <= i <= |k| ensures k[1..][i - 1..] == k[i..] { }
      if i :| 0 <= i <= |k[1..]| && Describes(rest, k[1..][i..]) { assert k[1..][i..] == k[i + 1..]; }
    }
  }

  // The text of a pattern describes exactly the keys its pieces mean.
  lemma {:induction false} TextMeansPieces(ps: seq<Piece>, k: Str)
    requires AllGood(ps)
    ensures Describes(TextOf(ps), k) <==> Means(ps, k)
    decreases |ps|
  {
    hide PieceText, Good;
    if ps != [] {
      var rest := TextOf(ps[1..]);
      assert AllGood(ps[1..]) by { forall i | 0 <= i < |ps[1..]| ensures Good(ps[1..][i]) { assert Good(ps[i + 1]); } }
      assert Good(ps[0]);
      PieceStep(ps[0], rest, k);
      if ps[0].Many? {
        forall i | 0 <= i <= |k| ensures Describes(rest, k[i..]) <==> Means(ps[1..], k[i..]) {
          TextMeansPieces(ps[1..], k[i..]);
        }
      } else if k != [] {
        TextMeansPieces(ps[1..], k[1..]);
      }
    }
  }

  lemma PieceStep(p: Piece, rest: Str, k: Str)
    requires Good(p)
    ensures Describes(PieceText(p) + rest, k) <==>
      if p.Many? then exists i :: 0 <= i <= |k| && Describes(rest, k[i..])
      else k != [] && FitsByte(p, k[0]) && Describes(rest, k[1..])
  {
    var t := PieceText(p) + rest;
    match p
    case Many => ManyText(rest, k);
    case OneOf(sign, items) => OneOfText(sign, items, rest, k);
    case Quote(c) => assert t[2..] == rest;
    case _ => assert t[1..] == rest;
  }

  // A sign, either of the two, turns a set into its complement.
  lemma SignComplements(items: seq<Item>, sign: Sign, c: Byte)
    requires Good(OneOf(Plain, items)) && !sign.Plain?
    ensures Describes(PieceText(OneOf(sign, items)), [c]) <==> !Describes(PieceText(OneOf(Plain, items)), [c])
  {
    assert PieceText(OneOf(sign, items)) == PieceText(OneOf(sign, items)) + [];
    assert PieceText(OneOf(Plain, items)) == PieceText(OneOf(Plain, items)) + [];
    OneOfText(sign, items, [], [c]);
    OneOfText(Plain, items, [], [c]);
  }

  // ----- what no piece renders -----

  // A backslash at the very end stands for itself.
  lemma LastBackslash(k: Str)
    ensures Describes([Code('\\')], k) <==> k == [Code('\\')]
  {
  }

  // A set that is never closed describes nothing, and compiling it reports the bracket.
  lemma UnclosedSet(p: Str, k: Str)
    requires Code(']') !in p
    ensures !Describes([Code('[')] + p, k)
    ensures Parse([Code('[')] + p).Unmatched? || Parse([Code('[')] + p).Stuck?
  {
    hide Ends;
    var t := [Code('[')] + p;
    assert t[1..] == p;
    NeverCloses(Items(t));
  }

  lemma {:induction false} NeverCloses(p: Str)
    requires Code(']') !in p
    ensures AfterClose(p).None? && !CharsetBody(p).Body?
    decreases |p|
  {
    hide Ends;
    if p != [] {
      if Escape(p) { NeverCloses(p[2..]); } else if IsRange(p) { NeverCloses(p[3..]); } else { NeverCloses(p[1..]); }
    }
  }

  // ----- the literal prefix -----

  predicate Wild(p: Piece) { p.Any? || p.Many? || p.OneOf? }

  // The bytes of the pieces before the first wildcard.
  function Lead(ps: seq<Piece>): Str {
    if ps == [] || Wild(ps[0]) then [] else [ps[0].c] + Lead(ps[1..])
  }

  // The prefix goes on exactly up to the first wildcard.
  lemma {:induction false} PrefixIsLead(ps: seq<Piece>)
    requires AllGood(ps)
    ensures ExtractPrefix(TextOf(ps)) == Lead(ps)
  {
    if ps != [] {
      var rest := TextOf(ps[1..]);
      assert AllGood(ps[1..]) by { forall i | 0 <= i < |ps[1..]| ensures Good(ps[1..][i]) { assert Good(ps[i + 1]); } }
      PrefixIsLead(ps[1..]);
      var t := PieceText(ps[0]) + rest;
      assert Good(ps[0]);
      match ps[0]
      case Quote(c) => assert t[2..] == rest;
      case Text(c) => assert t[1..] == rest;
      case _ =>
    }
  }

  // A pattern without wildcards describes its prefix and nothing else.
  lemma {:induction false} NoWildcards(p: Str, k: Str)
    requires Code('*') !in p && Code('?') !in p && Code('[') !in p
    ensures Describes(p, k) <==> k == ExtractPrefix(p)
    decreases |p|
  {
    if p != [] {
      var rest := if Escape(p) then p[2..] else p[1..];
      if k != [] {
        NoWildcards(rest, k[1..]);
        assert k == [k[0]] + k[1..];
      }
    }
  }
}
