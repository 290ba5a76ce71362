/**
 Decoding of HTML entities in SEO texts.  A text is a sequence of UTF-16 code units, so that a
 numeric reference above 0xffff becomes two units.
 */
module Entities {
  import opened Common

  type CodeUnit = u: int | 0 <= u < 0x1_0000
  type Text = seq<CodeUnit>

  const PASSES := 3

  function Of(s: string): Text {
    seq(|s|, i requires 0 <= i < |s| => if s[i] as int < 0x1_0000 then s[i] as int else 0xfffd)
  }

  const AMP: CodeUnit := 38
  const HASH: CodeUnit := 35
  const SEMICOLON: CodeUnit := 59

  /** "constructor" */
  const CONSTRUCTOR: Text := [99, 111, 110, 115, 116, 114, 117, 99, 116, 111, 114]
  const CONSTRUCTOR_REFERENCE: Text := [AMP] + CONSTRUCTOR + [SEMICOLON]

  predicate Digit(u: CodeUnit) {
    48 <= u <= 57
  }

  predicate Letter(u: CodeUnit) {
    65 <= u <= 90 || 97 <= u <= 122
  }

  predicate HexDigit(u: CodeUnit) {
    Digit(u) || 65 <= u <= 70 || 97 <= u <= 102
  }

  function LowerUnit(u: CodeUnit): CodeUnit {
    if 65 <= u <= 90 then u + 32 else u
  }

  function LowerText(t: Text): Text {
    seq(|t|, i requires 0 <= i < |t| => LowerUnit(t[i]))
  }

  function Value(digits: Text, base: nat): nat {
    if digits == [] then 0
    else
      var u := LowerUnit(digits[|digits| - 1]);
      Value(digits[..|digits| - 1], base) * base
      + (if Digit(u) then u - 48 else if 97 <= u <= 102 then u - 87 else 0)
  }

  /** The length of the longest prefix of t from this class of units. */
  function Span(t: Text, class_: CodeUnit -> bool): (n: nat)
    ensures n <= |t| && (forall i | 0 <= i < n :: class_(t[i])) && (n < |t| ==> !class_(t[n]))
  {
    if t != [] && class_(t[0]) then 1 + Span(t[1..], class_) else 0
  }

  /** n units and then a semicolon. */
  predicate Closed(t: Text, n: nat, most: nat) {
    1 <= n <= most && n < |t| && t[n] == SEMICOLON
  }

  datatype Shape = NoReference | Decimal(digits: Text) | Hexadecimal(digits: Text) | Named(name: Text)

  /** The reference that t starts with. */
  function ShapeOf(t: Text): Shape {
    if |t| < 2 || t[0] != AMP then NoReference
    else if t[1] == HASH then
      if |t| > 2 && LowerUnit(t[2]) == 120 then
        var n := Span(t[3..], HexDigit);
        if Closed(t[3..], n, 6) then Hexadecimal(t[3..][..n]) else NoReference
      else
        var n := Span(t[2..], Digit);
        if Closed(t[2..], n, 7) then Decimal(t[2..][..n]) else NoReference
    else
      var n := Span(t[1..], Letter);
      if Closed(t[1..], n, |t|) then Named(t[1..][..n]) else NoReference
  }

  function Length(shape: Shape): nat {
    match shape
    case NoReference => 0
    case Decimal(digits) => |digits| + 3
    case Hexadecimal(digits) => |digits| + 4
    case Named(name) => |name| + 2
  }

  function FromCodePoint(code: nat): Text
    requires code <= 0x10_ffff
  {
    if code < 0x1_0000 then [code]
    else [0xd800 + (code - 0x1_0000) / 0x400, 0xdc00 + (code - 0x1_0000) % 0x400]
  }

  predicate IsConstructor(shape: Shape) {
    shape.Named? && LowerText(shape.name) == CONSTRUCTOR
  }

  /**
   What a reference is replaced with.  The name `constructor` finds the one all-lower-case property
   that every object inherits, and is replaced with that function's source text, `native`.
   */
  function Replacement(shape: Shape, match_: Text, native: Text): Text {
    match shape
    case NoReference => match_
    case Decimal(digits) => FromCode(Value(digits, 10), match_)
    case Hexadecimal(digits) => FromCode(Value(digits, 16), match_)
    case Named(name) =>
      var lower := LowerText(name);
      if lower == Of("amp") then [AMP]
      else if lower == Of("lt") then [60]
      else if lower == Of("gt") then [62]
      else if lower == Of("quot") then [34]
      else if lower == Of("apos") then [39]
      else if lower == Of("nbsp") then [32]
      else if lower == CONSTRUCTOR then native
      else match_
  }

  function FromCode(code: nat, match_: Text): Text {
    if 0 < code <= 0x10_ffff then FromCodePoint(code) else match_
  }

  /** The reference t starts with is a real one: decoding replaces it. */
  predicate Decodes(t: Text, native: Text) {
    var shape := ShapeOf(t);
    shape != NoReference && Replacement(shape, t[..Length(shape)], native) != t[..Length(shape)]
  }

  /** How much of t one step of a pass consumes. */
  function StepLength(t: Text): (n: nat)
    requires t != []
    ensures 0 < n <= |t|
  {
    if ShapeOf(t) == NoReference then 1 else Length(ShapeOf(t))
  }

  /** What that step puts out. */
  function Head(t: Text, native: Text): Text
    requires t != []
  {
    var shape := ShapeOf(t);
    if shape == NoReference then [t[0]] else Replacement(shape, t[..Length(shape)], native)
  }

  /** One pass of global replacement, left to right. */
  function DecodeOnce(t: Text, native: Text): Text
    decreases |t|
  {
    if t == [] then [] else Head(t, native) + DecodeOnce(t[StepLength(t)..], native)
  }

  function Passes(t: Text, native: Text, n: nat): Text
    decreases n
  {
    if n == 0 then t else Passes(DecodeOnce(t, native), native, n - 1)
  }

  lemma {:induction false} FixedStays(t: Text, native: Text, n: nat)
    requires DecodeOnce(t, native) == t
    ensures Passes(t, native, n) == t
  {
    if n > 0 {
      FixedStays(t, native, n - 1);
    }
  }

  /** Stopping early at a text that no longer changes is only a shortcut. */
  method DecodeSeoEntities(value: Text, native: Text) returns (text: Text)
    ensures text == Passes(value, native, 3)
  {
    text := value;
    for pass := 0 to PASSES
      invariant Passes(value, native, PASSES) == Passes(text, native, PASSES - pass)
    {
      var next := DecodeOnce(text, native);
      if next == text {
        FixedStays(text, native, PASSES - pass);
        break;
      }
      text := next;
    }
  }

  // ----- Decoding undoes writing -----

  datatype Token = Plain(unit: CodeUnit) | Reference(text: Text)

  predicate Proper(token: Token) {
    match token
    case Plain(u) => u != AMP
    case Reference(r) => ShapeOf(r) != NoReference && Length(ShapeOf(r)) == |r|
  }

  /** The text that a writer produces. */
  function Written(tokens: seq<Token>): Text {
    if tokens == [] then []
    else (match tokens[0] case Plain(u) => [u] case Reference(r) => r) + Written(tokens[1..])
  }

  /** The text that the writer meant. */
  function Meant(tokens: seq<Token>, native: Text): Text {
    if tokens == [] then []
    else
      (match tokens[0] case Plain(u) => [u] case Reference(r) => Replacement(ShapeOf(r), r, native))
      + Meant(tokens[1..], native)
  }

  lemma {:induction false} SpanOfPrefix(t: Text, rest: Text, class_: CodeUnit -> bool)
    requires Span(t, class_) < |t|
    ensures Span(t + rest, class_) == Span(t, class_)
  {
    if class_(t[0]) {
      assert (t + rest)[1..] == t[1..] + rest;
      SpanOfPrefix(t[1..], rest, class_);
    }
  }

  lemma TailOfSum(t: Text, rest: Text, k: nat, n: nat)
    requires k + n < |t|
    ensures (t + rest)[k..] == t[k..] + rest && (t + rest)[k..][..n] == t[k..][..n] && (t + rest)[k + n] == t[k + n]
  {}

  /** A reference is recognised whatever follows it. */
  lemma ReferenceStands(r: Text, rest: Text)
    requires ShapeOf(r) != NoReference
    ensures ShapeOf(r + rest) == ShapeOf(r)
  {
    if r[1] == HASH {
      if LowerUnit(r[2]) == 120 {
        var n := Span(r[3..], HexDigit);
        TailOfSum(r, rest, 3, n);
        SpanOfPrefix(r[3..], rest, HexDigit);
      } else {
        var n := Span(r[2..], Digit);
        TailOfSum(r, rest, 2, n);
        SpanOfPrefix(r[2..], rest, Digit);
      }
    } else {
      var n := Span(r[1..], Letter);
      TailOfSum(r, rest, 1, n);
      SpanOfPrefix(r[1..], rest, Letter);
    }
  }

  /** One pass recovers any text written with whatever references, as long as no `&` was left bare. */
  lemma {:induction false} DecodingReadsWriting(tokens: seq<Token>, native: Text)
    requires forall token | token in tokens :: Proper(token)
    ensures DecodeOnce(Written(tokens), native) == Meant(tokens, native)
  {
    if tokens != [] {
      var rest := Written(tokens[1..]);
      DecodingReadsWriting(tokens[1..], native);
      assert Proper(tokens[0]);
      match tokens[0]
      case Plain(u) =>
        assert ([u] + rest)[1..] == rest;
      case Reference(r) =>
        ReferenceStands(r, rest);
        assert (r + rest)[..|r|] == r && (r + rest)[|r|..] == rest;
    }
  }

  // ----- Escaping -----

  /** What a writer does with one unit: leave it, or write the reference given for it. */
  type Escapes = map<CodeUnit, Text>

  const AMPERSANDS: Escapes := map[AMP := [38, 97, 109, 112, 59]]

  /** As HTML writers do: &amp; &lt; &gt; &quot; &#39; */
  const HTML: Escapes := map[
    AMP := [38, 97, 109, 112, 59],
    60 := [38, 108, 116, 59],
    62 := [38, 103, 116, 59],
    34 := [38, 113, 117, 111, 116, 59],
    39 := [38, 35, 51, 57, 59]
  ]

  function Escape(t: Text, escapes: Escapes): Text {
    if t == [] then []
    else (if t[0] in escapes then escapes[t[0]] else [t[0]]) + Escape(t[1..], escapes)
  }

  function EscapeAmp(t: Text): Text {
    Escape(t, AMPERSANDS)
  }

  function Escaped(t: Text, n: nat): Text {
    if n == 0 then t else EscapeAmp(Escaped(t, n - 1))
  }

  function TokensOf(t: Text, escapes: Escapes): (tokens: seq<Token>)
    ensures |tokens| == |t|
    ensures forall i | 0 <= i < |t| :: tokens[i] == if t[i] in escapes then Reference(escapes[t[i]]) else Plain(t[i])
  {
    seq(|t|, i requires 0 <= i < |t| => if t[i] in escapes then Reference(escapes[t[i]]) else Plain(t[i]))
  }

  /** Every escape is a reference to the unit it stands for, and ampersands are always escaped. */
  ghost predicate Faithful(escapes: Escapes, native: Text) {
    && AMP in escapes
    && forall u | u in escapes ::
         Proper(Reference(escapes[u])) && Replacement(ShapeOf(escapes[u]), escapes[u], native) == [u]
  }

  lemma {:induction false} EscapingIsWriting(t: Text, escapes: Escapes, native: Text)
    requires Faithful(escapes, native)
    ensures Written(TokensOf(t, escapes)) == Escape(t, escapes) && Meant(TokensOf(t, escapes), native) == t
  {
    if t != [] {
      assert TokensOf(t, escapes)[1..] == TokensOf(t[1..], escapes);
      EscapingIsWriting(t[1..], escapes, native);
      assert t == [t[0]] + t[1..];
    }
  }

  /** One pass undoes every faithful way of escaping, for every text. */
  lemma PassUndoesEscaping(t: Text, escapes: Escapes, native: Text)
    requires Faithful(escapes, native)
    ensures DecodeOnce(Escape(t, escapes), native) == t
  {
    EscapingIsWriting(t, escapes, native);
    DecodingReadsWriting(TokensOf(t, escapes), native);
  }

  lemma SpanIs(t: Text, class_: CodeUnit -> bool, n: nat)
    requires n <= |t| && (forall i | 0 <= i < n :: class_(t[i])) && (n < |t| ==> !class_(t[n]))
    ensures Span(t, class_) == n
  {}

  lemma NamedShape(name: Text)
    requires name != [] && forall i | 0 <= i < |name| :: Letter(name[i])
    ensures ShapeOf([AMP] + name + [SEMICOLON]) == Named(name)
  {
    var t := [AMP] + name + [SEMICOLON];
    assert t[1..] == name + [SEMICOLON];
    SpanIs(t[1..], Letter, |name|);
    assert t[1..][..|name|] == name;
  }

  lemma DecimalShape(digits: Text)
    requires 1 <= |digits| <= 7 && forall i | 0 <= i < |digits| :: Digit(digits[i])
    ensures ShapeOf([AMP, HASH] + digits + [SEMICOLON]) == Decimal(digits)
  {
    var t := [AMP, HASH] + digits + [SEMICOLON];
    assert t[2..] == digits + [SEMICOLON];
    SpanIs(t[2..], Digit, |digits|);
    assert t[2..][..|digits|] == digits;
    assert t[2] == digits[0];
  }

  lemma HexadecimalShape(digits: Text)
    requires 1 <= |digits| <= 6 && forall i | 0 <= i < |digits| :: HexDigit(digits[i])
    ensures ShapeOf([AMP, HASH, 120] + digits + [SEMICOLON]) == Hexadecimal(digits)
  {
    var t := [AMP, HASH, 120] + digits + [SEMICOLON];
    assert t[3..] == digits + [SEMICOLON];
    SpanIs(t[3..], HexDigit, |digits|);
    assert t[3..][..|digits|] == digits;
  }

  lemma NamesMean(match_: Text, native: Text)
    ensures Replacement(Named([97, 109, 112]), match_, native) == [AMP]
    ensures Replacement(Named([108, 116]), match_, native) == [60]
    ensures Replacement(Named([103, 116]), match_, native) == [62]
    ensures Replacement(Named([113, 117, 111, 116]), match_, native) == [34]
  {
    assert LowerText([97, 109, 112]) == [97, 109, 112] == Of("amp");
    assert LowerText([108, 116]) == [108, 116] == Of("lt");
    assert LowerText([103, 116]) == [103, 116] == Of("gt");
    assert LowerText([113, 117, 111, 116]) == [113, 117, 111, 116] == Of("quot");
  }

  lemma HtmlEscape(u: CodeUnit, native: Text)
    requires u in HTML
    ensures Proper(Reference(HTML[u])) && Replacement(ShapeOf(HTML[u]), HTML[u], native) == [u]
  {
    if u == 39 {
      DecimalShape([51, 57]);
      assert [AMP, HASH] + [51, 57] + [SEMICOLON] == HTML[39];
      assert [51, 57][..1] == [51] && [51][..0] == [] && Value([51, 57], 10) == 39;
    } else {
      var name: Text := if u == AMP then [97, 109, 112] else if u == 60 then [108, 116] else if u == 62 then [103, 116]
                        else [113, 117, 111, 116];
      assert [AMP] + name + [SEMICOLON] == HTML[u];
      NamedShape(name);
      NamesMean(HTML[u], native);
    }
  }

  lemma HtmlIsFaithful(native: Text)
    ensures Faithful(HTML, native) && Faithful(AMPERSANDS, native)
  {
    forall u | u in HTML ensures Proper(Reference(HTML[u])) && Replacement(ShapeOf(HTML[u]), HTML[u], native) == [u] {
      HtmlEscape(u, native);
    }
    assert AMPERSANDS[AMP] == HTML[AMP];
  }

  /** One pass is a left inverse of escaping ampersands, for every text. */
  lemma PassUndoesEscape(t: Text, native: Text)
    ensures DecodeOnce(EscapeAmp(t), native) == t
  {
    HtmlIsFaithful(native);
    PassUndoesEscaping(t, AMPERSANDS, native);
  }

  /** And of escaping as HTML writers do. */
  lemma PassUndoesHtml(t: Text, native: Text)
    ensures DecodeOnce(Escape(t, HTML), native) == t
  {
    HtmlIsFaithful(native);
    PassUndoesEscaping(t, HTML, native);
  }

  // ----- Numeric references -----

  function Figure(d: nat): CodeUnit
    requires d < 16
  {
    if d < 10 then 48 + d else 87 + d
  }

  /** A number written in a base. */
  function Numeral(n: nat, base: nat): Text
    requires 2 <= base <= 16
  {
    if n < base then [Figure(n)] else Numeral(n / base, base) + [Figure(n % base)]
  }

  lemma ValueOfMore(digits: Text, d: nat, base: nat)
    requires d < 16
    ensures Value(digits + [Figure(d)], base) == Value(digits, base) * base + d
  {
    var more := digits + [Figure(d)];
    assert more[..|digits|] == digits && more[|digits|] == Figure(d);
  }

  lemma Quotient(n: nat, base: nat)
    requires base > 0
    ensures n / base * base + n % base == n
  {}

  lemma ValueOfOneFigure(n: nat, base: nat)
    requires 2 <= base <= 16 && n < base
    ensures Value(Numeral(n, base), base) == n
  {
    ValueOfMore([], n, base);
    assert [] + [Figure(n)] == [Figure(n)];
  }

  lemma {:induction false} ValueOfNumeral(n: nat, base: nat)
    requires 2 <= base <= 16
    ensures Value(Numeral(n, base), base) == n
    decreases n
  {
    if n < base {
      ValueOfOneFigure(n, base);
    } else {
      Quotient(n, base);
      ValueOfNumeral(n / base, base);
      ValueOfMore(Numeral(n / base, base), n % base, base);
    }
  }

  function Power(base: nat, k: nat): nat {
    if k == 0 then 1 else base * Power(base, k - 1)
  }

  lemma Shorter(n: nat, base: nat, p: nat)
    requires 0 < base && n < base * p
    ensures n / base < p
  {
    if p <= n / base {
      AtLeastAsMany(p, n / base, base);
    }
  }

  lemma AtLeastAsMany(a: nat, b: nat, base: nat)
    requires a <= b
    ensures base * a <= base * b
  {}

  lemma {:induction false} NumeralFits(n: nat, base: nat, k: nat)
    requires 2 <= base <= 16 && k >= 1 && n < Power(base, k)
    ensures 1 <= |Numeral(n, base)| <= k
    ensures forall i | 0 <= i < |Numeral(n, base)| :: HexDigit(Numeral(n, base)[i])
    ensures base <= 10 ==> forall i | 0 <= i < |Numeral(n, base)| :: Digit(Numeral(n, base)[i])
    decreases k
  {
    if n >= base {
      Shorter(n, base, Power(base, k - 1));
      NumeralFits(n / base, base, k - 1);
    }
  }

  /** Every code point, written as a reference in decimal or hexadecimal, reads as its UTF-16 units... */
  lemma NumericReferencesRead(code: nat, native: Text)
    requires 0 < code <= 0x10_ffff
    ensures DecodeOnce([AMP, HASH] + Numeral(code, 10) + [SEMICOLON], native) == FromCodePoint(code)
    ensures DecodeOnce([AMP, HASH, 120] + Numeral(code, 16) + [SEMICOLON], native) == FromCodePoint(code)
  {
    assert Power(10, 7) == 10_000_000 && Power(16, 6) == 0x100_0000 by { PowersInUse(); }
    NumeralFits(code, 10, 7);
    NumeralFits(code, 16, 6);
    ValueOfNumeral(code, 10);
    ValueOfNumeral(code, 16);
    DecimalShape(Numeral(code, 10));
    HexadecimalShape(Numeral(code, 16));
    WholeReference([AMP, HASH] + Numeral(code, 10) + [SEMICOLON], native);
    WholeReference([AMP, HASH, 120] + Numeral(code, 16) + [SEMICOLON], native);
  }

  /** Which replacement a name has; `constructor` is inherited, every other name stays as it is. */
  function Reading(lower: Text, native: Text): Option<Text> {
    if lower == [97, 109, 112] then Some([38])
    else if lower == [108, 116] then Some([60])
    else if lower == [103, 116] then Some([62])
    else if lower == [113, 117, 111, 116] then Some([34])
    else if lower == [97, 112, 111, 115] then Some([39])
    else if lower == [110, 98, 115, 112] then Some([32])
    else if lower == [99, 111, 110, 115, 116, 114, 117, 99, 116, 111, 114] then Some(native)
    else None
  }

  /** The same letters, in lower case. */
  ghost predicate Lowered(name: Text, lower: Text) {
    && |name| == |lower|
    && forall i | 0 <= i < |name| :: 97 <= lower[i] <= 122 && (name[i] == lower[i] || name[i] == lower[i] - 32)
  }

  lemma LoweredIs(name: Text, lower: Text)
    requires Lowered(name, lower)
    ensures LowerText(name) == lower && forall i | 0 <= i < |name| :: Letter(name[i])
  {}

  /** Names are read in either case: the six known ones, and the inherited one; all others stay. */
  lemma NamesRead(name: Text, lower: Text, native: Text)
    requires name != [] && Lowered(name, lower)
    ensures DecodeOnce([38] + name + [59], native)
            == match Reading(lower, native) case Some(text) => text case None => [38] + name + [59]
  {
    LoweredIs(name, lower);
    NamedShape(name);
    WholeReference([AMP] + name + [SEMICOLON], native);
    KnownNames();
  }

  lemma KnownNames()
    ensures Of("amp") == [97, 109, 112] && Of("lt") == [108, 116] && Of("gt") == [103, 116]
    ensures Of("quot") == [113, 117, 111, 116] && Of("apos") == [97, 112, 111, 115] && Of("nbsp") == [110, 98, 115, 112]
  {}

  ghost predicate DecimalDigits(t: Text) {
    forall i | 0 <= i < |t| :: 48 <= t[i] <= 57
  }

  ghost predicate HexDigits(t: Text) {
    forall i | 0 <= i < |t| :: 48 <= t[i] <= 57 || 65 <= t[i] <= 70 || 97 <= t[i] <= 102
  }

  /** What the number of a reference is read as; zero and numbers beyond the last code point are left alone. */
  function NumberRead(code: nat, match_: Text): Text {
    if code == 0 || code > 1_114_111 then match_ else FromCodePoint(code)
  }

  /** One to seven decimal digits are read as a number; more are no reference. */
  lemma DecimalsRead(digits: Text, native: Text)
    requires digits != [] && DecimalDigits(digits)
    ensures var r := [38, 35] + digits + [59];
            if |digits| <= 7 then DecodeOnce(r, native) == NumberRead(Value(digits, 10), r) else ShapeOf(r) == NoReference
  {
    var r := [AMP, HASH] + digits + [SEMICOLON];
    if |digits| <= 7 {
      DecimalShape(digits);
      WholeReference(r, native);
    } else {
      assert r[2..] == digits + [SEMICOLON] && r[2] == digits[0];
      SpanIs(r[2..], Digit, |digits|);
    }
  }

  /** And so are one to six hexadecimal digits, of either case, behind an x of either case. */
  lemma HexadecimalsRead(x: CodeUnit, digits: Text, native: Text)
    requires x in {88, 120} && digits != [] && HexDigits(digits)
    ensures var r := [38, 35, x] + digits + [59];
            if |digits| <= 6 then DecodeOnce(r, native) == NumberRead(Value(digits, 16), r) else ShapeOf(r) == NoReference
  {
    var r := [AMP, HASH, x] + digits + [SEMICOLON];
    assert r[3..] == digits + [SEMICOLON];
    SpanIs(r[3..], HexDigit, |digits|);
    if |digits| <= 6 {
      assert r[3..][..|digits|] == digits;
      WholeReference(r, native);
    }
  }

  /** Digits count from zero to fifteen. */
  lemma ValueOfDigit(digits: Text, u: CodeUnit, base: nat)
    requires HexDigits([u])
    ensures Value(digits + [u], base)
            == Value(digits, base) * base + (if u <= 57 then u - 48 else if u <= 70 then u - 55 else u - 87)
  {
    var more := digits + [u];
    assert [u][0] == u && more[..|digits|] == digits && more[|digits|] == u;
  }

  lemma PowersInUse()
    ensures Power(10, 7) == 10_000_000 && Power(16, 6) == 0x100_0000
  {
    assert Power(10, 3) == 1000 && Power(16, 3) == 0x1000;
  }

  lemma WholeReference(r: Text, native: Text)
    requires Proper(Reference(r))
    ensures DecodeOnce(r, native) == Replacement(ShapeOf(r), r, native)
  {
    assert r[..|r|] == r && r[|r|..] == [];
  }

  /** ...and those units stand for that code point and no other. */
  function CodePointOf(t: Text): nat
    requires t != []
  {
    if |t| == 2 && 0xd800 <= t[0] < 0xdc00 <= t[1] < 0xe000
    then
      var high: int, low: int := t[0], t[1];
      0x1_0000 + (high - 0xd800) * 0x400 + (low - 0xdc00)
    else t[0]
  }

  lemma UnitsOfCodePoint(code: nat)
    requires code <= 0x10_ffff
    ensures FromCodePoint(code) != [] && CodePointOf(FromCodePoint(code)) == code
  {}

  // ----- Repeated escapes -----

  lemma {:induction false} PassesUndoEscapes(t: Text, native: Text, passes: nat, n: nat)
    ensures Passes(Escaped(t, n), native, passes)
            == if n >= passes then Escaped(t, n - passes) else Passes(t, native, passes - n)
    decreases passes
  {
    if passes > 0 && n > 0 {
      PassUndoesEscape(Escaped(t, n - 1), native);
      PassesUndoEscapes(t, native, passes - 1, n - 1);
    }
  }

  /**
   The decoder recovers a text escaped three times whatever it is, and one escaped less often
   exactly when the remaining passes leave it alone, as they do any text without references;
   further escapes stay.
   */
  lemma DecoderUndoesEscapes(t: Text, native: Text, n: nat)
    ensures n >= 3 ==> Passes(Escaped(t, n), native, 3) == Escaped(t, n - 3)
    ensures n < 3 ==> (Passes(Escaped(t, n), native, 3) == t <==> Passes(t, native, 3 - n) == t)
    ensures n < 3 && EntityFree(t, native) ==> Passes(Escaped(t, n), native, 3) == t
  {
    PassesUndoEscapes(t, native, 3, n);
    if n < 3 && EntityFree(t, native) {
      EntityFreeUnchanged(t, native);
      FixedStays(t, native, 3 - n);
    }
  }

  // ----- What a pass changes -----

  predicate EntityFree(t: Text, native: Text) {
    forall i {:trigger Decodes(t[i..], native)} | 0 <= i < |t| :: !Decodes(t[i..], native)
  }

  /** Some reference in t is spelled `&constructor;`, in upper or lower case. */
  predicate HasConstructor(t: Text) {
    exists i {:trigger ShapeOf(t[i..])} | 0 <= i < |t| :: IsConstructor(ShapeOf(t[i..]))
  }

  /** No reference starts inside another one. */
  lemma InsideReference(t: Text, i: nat)
    requires t != [] && 0 < i < StepLength(t)
    ensures t[i] != AMP && ShapeOf(t[i..]) == NoReference
  {}

  lemma StepSuffixes(t: Text, n: nat, p: Text -> bool)
    requires 0 < n <= |t| && forall i | 0 < i < n :: !p(t[i..])
    ensures (exists i | 0 <= i < |t| :: p(t[i..])) <==> p(t) || exists i | 0 <= i < |t[n..]| :: p(t[n..][i..])
  {
    assert t[0..] == t;
    forall i | 0 <= i < |t[n..]| ensures t[n..][i..] == t[n + i..] {}
    if i :| 0 <= i < |t| && p(t[i..]) {
      assert i >= n ==> t[n..][i - n..] == t[i..];
    }
    if i :| 0 <= i < |t[n..]| && p(t[n..][i..]) {
      assert p(t[n + i..]);
    }
  }

  lemma StepFree(t: Text, native: Text)
    requires t != []
    ensures EntityFree(t, native) <==> !Decodes(t, native) && EntityFree(t[StepLength(t)..], native)
  {
    var n := StepLength(t);
    forall i | 0 < i < n ensures ShapeOf(t[i..]) == NoReference {
      InsideReference(t, i);
    }
    StepSuffixes(t, n, u => Decodes(u, native));
  }

  lemma StepConstructor(t: Text)
    requires t != []
    ensures HasConstructor(t) <==> IsConstructor(ShapeOf(t)) || HasConstructor(t[StepLength(t)..])
  {
    var n := StepLength(t);
    forall i | 0 < i < n ensures ShapeOf(t[i..]) == NoReference {
      InsideReference(t, i);
    }
    StepSuffixes(t, n, u => IsConstructor(ShapeOf(u)));
  }

  lemma HeadUnchanged(t: Text, native: Text)
    requires t != [] && !Decodes(t, native)
    ensures Head(t, native) == t[..StepLength(t)]
  {
    assert t[..1] == [t[0]];
  }

  lemma Rejoin(t: Text, n: nat)
    requires n <= |t|
    ensures t[..n] + t[n..] == t
  {}

  /** A text without real references is left alone. */
  lemma {:induction false} EntityFreeUnchanged(t: Text, native: Text)
    requires EntityFree(t, native)
    ensures DecodeOnce(t, native) == t
    decreases |t|
  {
    if t != [] {
      StepFree(t, native);
      EntityFreeUnchanged(t[StepLength(t)..], native);
      HeadUnchanged(t, native);
      Rejoin(t, StepLength(t));
    }
  }

  /** A reference that is replaced gets shorter, unless it names the inherited property. */
  lemma ReferenceShortensIff(t: Text, native: Text)
    requires Decodes(t, native)
    ensures var shape := ShapeOf(t); var r := Replacement(shape, t[..Length(shape)], native);
            |native| > |CONSTRUCTOR_REFERENCE| ==> (|r| < Length(shape) <==> !IsConstructor(shape))
    ensures var shape := ShapeOf(t); var r := Replacement(shape, t[..Length(shape)], native);
            !IsConstructor(shape) ==> |r| < Length(shape)
  {
    var shape := ShapeOf(t);
    if shape.Named? {
      assert |LowerText(shape.name)| == |shape.name|;
      assert |CONSTRUCTOR| == 11 && |CONSTRUCTOR_REFERENCE| == 13;
    }
  }

  /** Without `&constructor;` every pass that finds something to decode strictly shortens the text. */
  lemma {:induction false} PassShortens(t: Text, native: Text)
    requires !HasConstructor(t)
    ensures |DecodeOnce(t, native)| + (if EntityFree(t, native) then 0 else 1) <= |t|
    decreases |t|
  {
    if t != [] {
      StepFree(t, native);
      StepConstructor(t);
      PassShortens(t[StepLength(t)..], native);
      if Decodes(t, native) {
        ReferenceShortensIff(t, native);
      }
    }
  }

  /** How the source text of a function begins: "function " and its name. */
  predicate FunctionSource(native: Text) {
    |native| > 8 && native[0] != AMP && native[8] == 32
  }

  predicate InReference(u: CodeUnit) {
    Letter(u) || Digit(u) || u == HASH || u == SEMICOLON || u == AMP
  }

  lemma ReferenceUnits(t: Text, i: nat)
    requires ShapeOf(t) != NoReference && i < Length(ShapeOf(t))
    ensures InReference(t[i])
  {}

  lemma CutFront(a: Text, b: Text, front: Text, back: Text)
    requires front + back == a + b && |front| <= |a|
    ensures a[..|front|] == front && back == a[|front|..] + b
  {
    var whole := a + b;
    assert whole[..|front|] == front && whole[|front|..] == back;
    assert whole[..|front|] == a[..|front|];
    assert whole[|front|..] == a[|front|..] + b;
  }

  /** How a step puts out less than it has to catch up with. */
  lemma StepLags(t: Text, native: Text)
    requires t != [] && !IsConstructor(ShapeOf(t))
    ensures |Head(t, native)| <= StepLength(t)
    ensures ShapeOf(t) == NoReference ==> Head(t, native) == [t[0]] && StepLength(t) == 1
  {
    if Decodes(t, native) {
      ReferenceShortensIff(t, native);
    } else {
      HeadUnchanged(t, native);
    }
  }

  /** If the output of a pass were its input behind a lag of reference units, it would be so one step later. */
  lemma LagAdvances(lag: Text, t: Text, native: Text)
    requires FunctionSource(native) && t != [] && lag != [] && forall i | 0 <= i < |lag| :: InReference(lag[i])
    requires !IsConstructor(ShapeOf(t))
    ensures var n, m := StepLength(t), |Head(t, native)|;
            DecodeOnce(t, native) == lag + t ==>
              && m < |lag + t[..n]| && (forall i | m <= i < |lag + t[..n]| :: InReference((lag + t[..n])[i]))
              && DecodeOnce(t[n..], native) == (lag + t[..n])[m..] + t[n..]
  {
    var n, head := StepLength(t), Head(t, native);
    var whole, rest := lag + t[..n], t[n..];
    StepLags(t, native);
    if DecodeOnce(t, native) == lag + t {
      Rejoin(t, n);
      assert lag + t == whole + rest;
      CutFront(whole, rest, head, DecodeOnce(rest, native));
      forall i | |head| <= i < |whole| ensures InReference(whole[i]) {
        if i >= |lag| {
          if ShapeOf(t) == NoReference {
            assert whole[i] == t[0] == head[0] == whole[0] == lag[0];
          } else {
            ReferenceUnits(t, i - |lag|);
          }
        }
      }
    }
  }

  /** The output of a pass is never its input behind such a lag: what a decoded reference took away stays away. */
  lemma {:induction false} NeverCatchesUp(lag: Text, t: Text, native: Text)
    requires FunctionSource(native) && lag != [] && forall i | 0 <= i < |lag| :: InReference(lag[i])
    ensures DecodeOnce(t, native) != lag + t
    decreases |t|
  {
    if t != [] {
      var n := StepLength(t);
      if IsConstructor(ShapeOf(t)) {
        SourceStandsOut(lag, t, native);
      } else {
        LagAdvances(lag, t, native);
        var m, whole := |Head(t, native)|, lag + t[..n];
        if m < |whole| && forall i | m <= i < |whole| :: InReference(whole[i]) {
          NeverCatchesUp(whole[m..], t[n..], native);
        }
      }
    }
  }

  lemma SourceStandsOut(lag: Text, t: Text, native: Text)
    requires FunctionSource(native) && lag != [] && forall i | 0 <= i < |lag| :: InReference(lag[i])
    requires IsConstructor(ShapeOf(t))
    ensures DecodeOnce(t, native) != lag + t
  {
    var shape := ShapeOf(t);
    assert |LowerText(shape.name)| == |shape.name| && |CONSTRUCTOR| == 11;
    assert Length(shape) == 13;
    assert DecodeOnce(t, native)[8] == native[8];
    if |lag| <= 8 {
      ReferenceUnits(t, 8 - |lag|);
    }
    assert InReference((lag + t)[8]);
  }

  lemma ReplacedIsChanged(t: Text, native: Text)
    requires FunctionSource(native) && Decodes(t, native) && !IsConstructor(ShapeOf(t))
    ensures DecodeOnce(t, native) != t
  {
    var n, head := StepLength(t), Head(t, native);
    var r, rest := t[..n], t[n..];
    ReferenceShortensIff(t, native);
    var lag := r[|head|..];
    forall i | 0 <= i < |lag| ensures InReference(lag[i]) {
      ReferenceUnits(t, |head| + i);
    }
    NeverCatchesUp(lag, rest, native);
    Rejoin(t, n);
    if head + DecodeOnce(rest, native) == r + rest {
      CutFront(r, rest, head, DecodeOnce(rest, native));
    }
  }

  lemma LaterIsChanged(t: Text, native: Text)
    requires t != [] && !Decodes(t, native) && DecodeOnce(t[StepLength(t)..], native) != t[StepLength(t)..]
    ensures DecodeOnce(t, native) != t
  {
    var n := StepLength(t);
    HeadUnchanged(t, native);
    assert (t[..n] + DecodeOnce(t[n..], native))[n..] == DecodeOnce(t[n..], native);
  }

  lemma SourceIsChange(t: Text, native: Text)
    requires FunctionSource(native) && IsConstructor(ShapeOf(t))
    ensures DecodeOnce(t, native) != t
  {
    assert DecodeOnce(t, native)[0] == native[0];
  }

  /** A text with a real reference in it is changed. */
  lemma {:induction false} DecodedIsChanged(t: Text, native: Text)
    requires FunctionSource(native) && !EntityFree(t, native)
    ensures DecodeOnce(t, native) != t
    decreases |t|
  {
    StepFree(t, native);
    if !Decodes(t, native) {
      DecodedIsChanged(t[StepLength(t)..], native);
      LaterIsChanged(t, native);
    } else if IsConstructor(ShapeOf(t)) {
      SourceIsChange(t, native);
    } else {
      ReplacedIsChanged(t, native);
    }
  }

  /**
   So exactly the texts without real references are left alone, and without `&constructor;` any
   other text gets shorter.
   */
  lemma UnchangedIff(t: Text, native: Text)
    ensures FunctionSource(native) || !HasConstructor(t) ==> (DecodeOnce(t, native) == t <==> EntityFree(t, native))
    ensures !HasConstructor(t) && DecodeOnce(t, native) != t ==> |DecodeOnce(t, native)| < |t|
  {
    if EntityFree(t, native) {
      EntityFreeUnchanged(t, native);
    } else if FunctionSource(native) {
      DecodedIsChanged(t, native);
    }
    if !HasConstructor(t) {
      PassShortens(t, native);
    }
  }

  /** With it a pass can lengthen the text: this one reference grows into the function's source. */
  lemma ConstructorLengthens(native: Text)
    requires |native| > 13
    ensures var t := CONSTRUCTOR_REFERENCE;
            DecodeOnce(t, native) == native && |DecodeOnce(t, native)| > |t| && HasConstructor(t)
  {
    var t := CONSTRUCTOR_REFERENCE;
    assert t[0..] == t;
    ConstructorShape();
    assert t[13..] == [] && DecodeOnce(t[13..], native) == [];
  }

  lemma ConstructorShape()
    ensures |CONSTRUCTOR_REFERENCE| == 13
    ensures IsConstructor(ShapeOf(CONSTRUCTOR_REFERENCE)) && Length(ShapeOf(CONSTRUCTOR_REFERENCE)) == 13
  {
    NamedShape(CONSTRUCTOR);
    assert LowerText(CONSTRUCTOR) == CONSTRUCTOR;
  }
}
