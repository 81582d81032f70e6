/** Recovering the authored fragment of an in-document link that the
    Vivliostyle renderer has rewritten.

    The renderer turns `#frag` into
    `#viv-id-` + escaped document path + `:0023` + escaped `frag`, where a
    "special" code unit is escaped as a colon and four hexadecimal digits.
    For an `.html` document the escaped path ends in `:002ehtml` (the escaped
    `.html`), so the text `ehtml:0023` separates the path from the fragment. */
module Href {
  import opened Wrappers
  import opened JSStrings

  /** `#` */
  const Hash: CodeUnit := 0x23
  /** `:` */
  const Colon: CodeUnit := 0x3A
  /** `ehtml:0023` */
  const Marker: JSString := [0x65, 0x68, 0x74, 0x6D, 0x6C, 0x3A, 0x30, 0x30, 0x32, 0x33]

  // ---------------------------------------------------------------------------
  // Hexadecimal digits

  /** The character class `[0-9a-fA-F]`. */
  predicate IsHexDigit(c: CodeUnit) {
    0x30 <= c <= 0x39 || 0x41 <= c <= 0x46 || 0x61 <= c <= 0x66
  }

  /** The value of one hexadecimal digit, as `parseInt(_, 16)` reads it. */
  function HexValue(c: CodeUnit): (v: nat)
    requires IsHexDigit(c)
    ensures v < 16
  {
    if c <= 0x39 then c - 0x30 else if c <= 0x46 then c - 0x41 + 10 else c - 0x61 + 10
  }

  /** The lower-case hexadecimal digit of `v`. */
  function HexDigit(v: nat): (c: CodeUnit)
    requires v < 16
  {
    if v < 10 then 0x30 + v else 0x61 + v - 10
  }

  /** Writing a digit and reading it back gives the value; reading a digit and
      writing it back gives the digit in lower case. */
  lemma HexDigitRoundTrip(v: nat, c: CodeUnit)
    requires v < 16 && IsHexDigit(c)
    ensures IsHexDigit(HexDigit(v)) && HexValue(HexDigit(v)) == v
    ensures HexDigit(HexValue(c)) == LowerUnit(c)
  {
  }

  // ---------------------------------------------------------------------------
  // Escapes

  /** A match of the regular expression `:[0-9a-fA-F]{4}` starts at index `i` of `s`. */
  predicate IsEscapeAt(s: JSString, i: nat) {
    i + 5 <= |s| && s[i] == Colon
    && IsHexDigit(s[i + 1]) && IsHexDigit(s[i + 2]) && IsHexDigit(s[i + 3]) && IsHexDigit(s[i + 4])
  }

  /** `s` is exactly one match of `:[0-9a-fA-F]{4}`. */
  predicate IsEscape(s: JSString) {
    |s| == 5 && IsEscapeAt(s, 0)
  }

  /** `parseInt(d, 16)` of four hexadecimal digits. */
  function ParseHex4(d: JSString): (v: nat)
    requires |d| == 4 && IsHexDigit(d[0]) && IsHexDigit(d[1]) && IsHexDigit(d[2]) && IsHexDigit(d[3])
    ensures v < 0x1_0000
  {
    ((HexValue(d[0]) * 16 + HexValue(d[1])) * 16 + HexValue(d[2])) * 16 + HexValue(d[3])
  }

  /** `String.fromCharCode(n)`: the code unit `ToUint16(n)`. */
  function FromCharCode(n: nat): (c: CodeUnit)
    ensures n < 0x1_0000 ==> c == n
    ensures (c - n) % 0x1_0000 == 0
  {
    n % 0x1_0000
  }

  /** The renderer's escape of one code unit: a colon and four lower-case
      hexadecimal digits. */
  function Escape(c: CodeUnit): (r: JSString)
    ensures IsEscape(r)
  {
    var q1 := c / 16;
    var q2 := q1 / 16;
    HexDigitRoundTrip(q2 / 16, 0x30);
    HexDigitRoundTrip(q2 % 16, 0x30);
    HexDigitRoundTrip(q1 % 16, 0x30);
    HexDigitRoundTrip(c % 16, 0x30);
    [Colon, HexDigit(q2 / 16), HexDigit(q2 % 16), HexDigit(q1 % 16), HexDigit(c % 16)]
  }

  /** Division by 16 separates the last hexadecimal digit. */
  lemma DivMod16(q: nat, d: nat)
    requires d < 16
    ensures (q * 16 + d) / 16 == q && (q * 16 + d) % 16 == d
  {
  }

  /** Four hexadecimal digits are recovered from their value by division by 16. */
  lemma DigitsOf(u: nat, a: nat, b: nat, c: nat, d: nat)
    requires a < 16 && b < 16 && c < 16 && d < 16
    requires u == ((a * 16 + b) * 16 + c) * 16 + d
    ensures u / 16 / 16 / 16 == a && u / 16 / 16 % 16 == b && u / 16 % 16 == c && u % 16 == d
  {
    DivMod16((a * 16 + b) * 16 + c, d);
    DivMod16(a * 16 + b, c);
    DivMod16(a, b);
  }

  /** The escape of `u` writes its four hexadecimal digits. */
  lemma EscapeDigits(u: CodeUnit, a: nat, b: nat, c: nat, d: nat)
    requires a < 16 && b < 16 && c < 16 && d < 16
    requires u / 16 / 16 / 16 == a && u / 16 / 16 % 16 == b && u / 16 % 16 == c && u % 16 == d
    ensures Escape(u) == [Colon, HexDigit(a), HexDigit(b), HexDigit(c), HexDigit(d)]
  {
  }

  /** The replacement callback for one match: the single code unit the four
      digits denote. Re-escaping that code unit gives the match back, with its
      digits in lower case. The callback's `indexOf(":") === 0` test always
      holds for a match. */
  function UnescapeChar(m: JSString): (r: JSString)
    requires IsEscape(m)
    ensures |r| == 1
    ensures Escape(r[0]) == ToLowerAscii(m)
  {
    if m[0] == Colon then
      var r := [FromCharCode(ParseHex4(m[1..]))];
      EscapeOfParse(m);
      r
    else
      m
  }

  /** Re-escaping the value of an escape reproduces it in lower case. */
  lemma EscapeOfParse(m: JSString)
    requires IsEscape(m)
    ensures Escape(FromCharCode(ParseHex4(m[1..]))) == ToLowerAscii(m)
  {
    var a, b, c, d := HexValue(m[1]), HexValue(m[2]), HexValue(m[3]), HexValue(m[4]);
    var v := ParseHex4(m[1..]);
    assert v == ((a * 16 + b) * 16 + c) * 16 + d;
    var u := FromCharCode(v);
    assert u == v;
    DigitsOf(u, a, b, c, d);
    EscapeDigits(u, a, b, c, d);
    HexDigitRoundTrip(a, m[1]);
    HexDigitRoundTrip(b, m[2]);
    HexDigitRoundTrip(c, m[3]);
    HexDigitRoundTrip(d, m[4]);
    assert ToLowerAscii(m) == [LowerUnit(m[0]), LowerUnit(m[1]), LowerUnit(m[2]), LowerUnit(m[3]), LowerUnit(m[4])];
  }

  /** Unescaping the escape of a code unit gives that code unit back. */
  lemma UnescapeCharOfEscape(c: CodeUnit)
    ensures UnescapeChar(Escape(c)) == [c]
  {
    var e := Escape(c);
    var q1 := c / 16;
    var q2 := q1 / 16;
    var a, b, x, d := q2 / 16, q2 % 16, q1 % 16, c % 16;
    HexDigitRoundTrip(a, 0x30);
    HexDigitRoundTrip(b, 0x30);
    HexDigitRoundTrip(x, 0x30);
    HexDigitRoundTrip(d, 0x30);
    assert e[1..] == [HexDigit(a), HexDigit(b), HexDigit(x), HexDigit(d)];
    assert ParseHex4(e[1..]) == ((a * 16 + b) * 16 + x) * 16 + d;
  }

  // ---------------------------------------------------------------------------
  // Decoding a whole string

  /** `str.replace(/:[0-9a-fA-F]{4}/g, unescapeChar)`: a left-to-right scan
      that replaces each match by its code unit and copies everything else.
      Every match is five code units long, so the leftmost match at or after
      a position either starts there or does not touch it. */
  function Unescape(s: JSString): (r: JSString)
    ensures |r| <= |s|
    decreases |s|
  {
    if s == [] then []
    else if IsEscapeAt(s, 0) then UnescapeChar(s[..5]) + Unescape(s[5..])
    else [s[0]] + Unescape(s[1..])
  }

  /** Each match found shortens the string by four code units. */
  lemma {:induction false} UnescapeShrinks(s: JSString, i: nat)
    requires IsEscapeAt(s, i)
    ensures |Unescape(s)| < |s|
    decreases |s|
  {
    if IsEscapeAt(s, 0) {
      assert |Unescape(s)| == 1 + |Unescape(s[5..])|;
    } else {
      assert i > 0;
      assert IsEscapeAt(s[1..], i - 1);
      UnescapeShrinks(s[1..], i - 1);
    }
  }

  /** A string without a match is left unchanged. */
  lemma {:induction false} UnescapeNoEscape(s: JSString)
    requires forall i :: 0 <= i < |s| ==> !IsEscapeAt(s, i)
    ensures Unescape(s) == s
    decreases |s|
  {
    if s != [] {
      forall i | 0 <= i < |s| - 1 ensures !IsEscapeAt(s[1..], i) {
        assert !IsEscapeAt(s, i + 1);
      }
      UnescapeNoEscape(s[1..]);
    }
  }

  /** Decoding leaves a string unchanged exactly when no `:hhhh` occurs in it. */
  lemma UnescapeFixedPoint(s: JSString)
    ensures Unescape(s) == s <==> forall i :: 0 <= i < |s| ==> !IsEscapeAt(s, i)
  {
    if forall i :: 0 <= i < |s| ==> !IsEscapeAt(s, i) {
      UnescapeNoEscape(s);
    } else {
      var i :| 0 <= i < |s| && IsEscapeAt(s, i);
      UnescapeShrinks(s, i);
    }
  }

  /** A string with no colon is left unchanged. */
  lemma UnescapeWithoutColon(s: JSString)
    requires forall i :: 0 <= i < |s| ==> s[i] != Colon
    ensures Unescape(s) == s
  {
    UnescapeFixedPoint(s);
  }

  /** `:0041:0042` decodes to `AB`. */
  lemma UnescapeExample()
    ensures Unescape([0x3A, 0x30, 0x30, 0x34, 0x31, 0x3A, 0x30, 0x30, 0x34, 0x32]) == [0x41, 0x42]
  {
    assert Encode([0x41, 0x42], {Colon, 0x41, 0x42}) == [0x3A, 0x30, 0x30, 0x34, 0x31, 0x3A, 0x30, 0x30, 0x34, 0x32];
    UnescapeEncode([0x41, 0x42], {Colon, 0x41, 0x42});
  }

  /** `:00g1:12` has no four hexadecimal digits after a colon and is left as it is. */
  lemma UnescapeMalformedExample()
    ensures Unescape([0x3A, 0x30, 0x30, 0x67, 0x31, 0x3A, 0x31, 0x32]) == [0x3A, 0x30, 0x30, 0x67, 0x31, 0x3A, 0x31, 0x32]
  {
    UnescapeNoEscape([0x3A, 0x30, 0x30, 0x67, 0x31, 0x3A, 0x31, 0x32]);
  }

  /** A match at index `k + i` of `s` is a match at index `i` of `s[k..]`. */
  lemma IsEscapeAtDrop(s: JSString, k: nat, i: nat)
    requires k <= |s|
    ensures IsEscapeAt(s, k + i) <==> IsEscapeAt(s[k..], i)
  {
  }

  /** One step of the scan at a match. */
  lemma UnescapeAtEscape(s: JSString)
    requires IsEscapeAt(s, 0)
    ensures Unescape(s) == UnescapeChar(s[..5]) + Unescape(s[5..])
  {
  }

  /** One step of the scan at literal text. */
  lemma UnescapeAtLiteral(s: JSString)
    requires s != [] && !IsEscapeAt(s, 0)
    ensures Unescape(s) == [s[0]] + Unescape(s[1..])
  {
  }

  /** Up to index `k` within `a`, `a + b` is `a`; from there on it is the rest
      of `a` followed by `b`. */
  lemma ConcatSplit(a: JSString, b: JSString, k: nat)
    requires k <= |a|
    ensures (a + b)[..k] == a[..k] && (a + b)[k..] == a[k..] + b
  {
    assert (a + b)[..k] == a[..k];
    assert (a + b)[k..] == a[k..] + b;
  }

  /** Whether a match starts at index 0 depends only on the first five code
      units. */
  lemma IsEscapeAtFront(a: JSString, b: JSString)
    requires |a| >= 5
    ensures IsEscapeAt(a + b, 0) <==> IsEscapeAt(a, 0)
  {
    var ab := a + b;
    assert ab[0] == a[0] && ab[1] == a[1] && ab[2] == a[2] && ab[3] == a[3] && ab[4] == a[4];
  }

  /** The step of `UnescapeConcat` when `a + b` starts with a match, given the
      decoding of the rest piece by piece. */
  lemma UnescapeConcatEscape(a: JSString, b: JSString)
    requires |a| >= 5 && IsEscapeAt(a + b, 0)
    requires Unescape(a[5..] + b) == Unescape(a[5..]) + Unescape(b)
    ensures Unescape(a + b) == Unescape(a) + Unescape(b)
  {
    IsEscapeAtFront(a, b);
    ConcatSplit(a, b, 5);
    UnescapeAtEscape(a);
    UnescapeAtEscape(a + b);
    AppendAssoc(UnescapeChar(a[..5]), Unescape(a[5..]), Unescape(b));
  }

  /** The step of `UnescapeConcat` when `a + b` starts with literal text, given
      the decoding of the rest piece by piece. */
  lemma UnescapeConcatLiteral(a: JSString, b: JSString)
    requires a != [] && !IsEscapeAt(a + b, 0)
    requires Unescape(a[1..] + b) == Unescape(a[1..]) + Unescape(b)
    ensures Unescape(a + b) == Unescape(a) + Unescape(b)
  {
    if |a| >= 5 {
      IsEscapeAtFront(a, b);
    }
    ConcatSplit(a, b, 1);
    assert (a + b)[0] == a[0];
    UnescapeAtLiteral(a);
    UnescapeAtLiteral(a + b);
    AppendAssoc([a[0]], Unescape(a[1..]), Unescape(b));
  }

  /** No match starts in the last four code units of `a` (within `a + b`). */
  predicate NoSeamEscape(a: JSString, b: JSString) {
    forall i :: |a| - 4 <= i < |a| && 0 <= i ==> !IsEscapeAt(a + b, i)
  }

  /** Dropping `k` code units from the front of `a` keeps `NoSeamEscape`. */
  lemma NoSeamEscapeDrop(a: JSString, b: JSString, k: nat)
    requires k <= |a| && NoSeamEscape(a, b)
    ensures NoSeamEscape(a[k..], b)
  {
    assert (a + b)[k..] == a[k..] + b;
    forall i | |a[k..]| - 4 <= i < |a[k..]| && 0 <= i ensures !IsEscapeAt(a[k..] + b, i) {
      IsEscapeAtDrop(a + b, k, i);
    }
  }

  /** Decoding works piece by piece: when no match starts in the last four code
      units of `a`, none straddles the seam, and the decoding of `a + b` is the
      decoding of `a` followed by that of `b`. With `UnescapeChar` and
      `UnescapeNoEscape` this fixes the decoding of every mixture of matches
      and literal text. */
  lemma {:induction false} UnescapeConcat(a: JSString, b: JSString)
    requires NoSeamEscape(a, b)
    ensures Unescape(a + b) == Unescape(a) + Unescape(b)
    decreases |a|
  {
    if a == [] {
      assert a + b == b;
    } else if IsEscapeAt(a + b, 0) {
      assert |a| >= 5;
      NoSeamEscapeDrop(a, b, 5);
      UnescapeConcat(a[5..], b);
      UnescapeConcatEscape(a, b);
    } else {
      NoSeamEscapeDrop(a, b, 1);
      UnescapeConcat(a[1..], b);
      UnescapeConcatLiteral(a, b);
    }
  }

  /** `:00g1:0041` decodes to `:00g1A`: the malformed run stays literal and the
      match after it is decoded. */
  lemma UnescapeMixedExample()
    ensures Unescape([0x3A, 0x30, 0x30, 0x67, 0x31] + [0x3A, 0x30, 0x30, 0x34, 0x31])
            == [0x3A, 0x30, 0x30, 0x67, 0x31, 0x41]
  {
    var a: JSString := [0x3A, 0x30, 0x30, 0x67, 0x31];
    var b: JSString := [0x3A, 0x30, 0x30, 0x34, 0x31];
    UnescapeConcat(a, b);
    UnescapeNoEscape(a);
    assert b == Escape(0x41);
    UnescapeCharOfEscape(0x41);
    assert b[..5] == b && b[5..] == [];
  }

  /** `::004A` decodes to `:J`: a literal colon before an upper-case match. */
  lemma UnescapeUpperCaseExample()
    ensures Unescape([0x3A] + [0x3A, 0x30, 0x30, 0x34, 0x41]) == [0x3A, 0x4A]
  {
    var b: JSString := [0x3A, 0x30, 0x30, 0x34, 0x41];
    UnescapeConcat([0x3A], b);
    assert b[..5] == b && b[5..] == [];
    assert ParseHex4(b[1..]) == 0x4A;
  }

  // ---------------------------------------------------------------------------
  // The renderer's encoding, as the partner of the decoder

  /** Escapes every code unit of `s` that is in `special`: each code unit
      becomes one or five. */
  function Encode(s: JSString, special: set<CodeUnit>): (r: JSString)
    ensures |s| <= |r| <= 5 * |s|
    decreases |s|
  {
    if s == [] then []
    else (if s[0] in special then Escape(s[0]) else [s[0]]) + Encode(s[1..], special)
  }

  /** A string with nothing special in it is its own encoding. */
  lemma {:induction false} EncodeNothingSpecial(s: JSString, special: set<CodeUnit>)
    requires forall i :: 0 <= i < |s| ==> s[i] !in special
    ensures Encode(s, special) == s
    decreases |s|
  {
    if s != [] {
      assert forall i :: 0 <= i < |s[1..]| ==> s[1..][i] == s[i + 1];
      EncodeNothingSpecial(s[1..], special);
    }
  }

  /** Decoding undoes the encoding, as long as the colon itself is escaped. */
  lemma {:induction false} UnescapeEncode(s: JSString, special: set<CodeUnit>)
    requires Colon in special
    ensures Unescape(Encode(s, special)) == s
    decreases |s|
  {
    if s != [] {
      var rest := Encode(s[1..], special);
      var e := Encode(s, special);
      UnescapeEncode(s[1..], special);
      if s[0] in special {
        assert e == Escape(s[0]) + rest;
        assert e[..5] == Escape(s[0]) && e[5..] == rest;
        UnescapeCharOfEscape(s[0]);
      } else {
        assert e == [s[0]] + rest;
        assert e[1..] == rest;
      }
    }
  }

  /** Without escaping the colon the encoding is not invertible: the literal
      text `:0041` decodes to `A`. */
  lemma EncodeNeedsColon()
    ensures Unescape(Encode([0x3A, 0x30, 0x30, 0x34, 0x31], {})) != [0x3A, 0x30, 0x30, 0x34, 0x31]
  {
    assert Encode([0x3A, 0x30, 0x30, 0x34, 0x31], {}) == [0x3A, 0x30, 0x30, 0x34, 0x31];
  }

  // ---------------------------------------------------------------------------
  // Demangling

  /** `demangledHref(href)`: `null` and every href that does not start with `#`
      or does not contain the marker pass through unchanged; otherwise the
      result is `#` followed by the decoded text after the first marker. */
  function Demangle(href: Option<JSString>): (r: Option<JSString>)
    ensures r.Some? <==> href.Some?
    ensures href.None? || !StartsWith(href.value, [Hash]) || !Contains(href.value, Marker) ==> r == href
    ensures href.Some? && StartsWith(href.value, [Hash]) ==> StartsWith(r.value, [Hash])
  {
    if href.None? || !StartsWith(href.value, [Hash]) then href
    else
      var index := IndexOf(href.value, Marker);
      if index == -1 then href
      else Some([Hash] + Unescape(href.value[index + |Marker|..]))
  }

  /** With the marker first occurring at `k`, the result is `#` and the decoded
      text after it. */
  lemma DemangleMangled(h: JSString, k: nat)
    requires StartsWith(h, [Hash])
    requires OccursAt(h, Marker, k)
    requires forall j :: 0 <= j < k ==> !OccursAt(h, Marker, j)
    ensures Demangle(Some(h)) == Some([Hash] + Unescape(h[k + |Marker|..]))
  {
    var index := IndexOf(h, Marker);
    assert index != -1;
  }

  /** An href without the marker is left alone, so demangling it again changes
      nothing. */
  lemma DemangleIdempotentWithoutMarker(href: Option<JSString>)
    requires href.None? || !Contains(href.value, Marker)
    ensures Demangle(Demangle(href)) == Demangle(href)
  {
  }

  /** The renderer's rewrite of `#` + `fragment` is undone: `prefix` stands for
      `viv-id-` and the escaped document path, which must not contain the
      marker (not even with the start of the marker appended). */
  lemma DemangleOfMangled(prefix: JSString, fragment: JSString, special: set<CodeUnit>)
    requires Colon in special
    requires !Contains([Hash] + prefix + Marker[..|Marker| - 1], Marker)
    ensures Demangle(Some([Hash] + prefix + Marker + Encode(fragment, special))) == Some([Hash] + fragment)
  {
    var h := [Hash] + prefix + Marker + Encode(fragment, special);
    var k := 1 + |prefix|;
    var head := [Hash] + prefix + Marker[..|Marker| - 1];
    assert h[k..k + |Marker|] == Marker;
    forall j | 0 <= j < k ensures !OccursAt(h, Marker, j) {
      assert j + |Marker| <= |head|;
      assert h[j..j + |Marker|] == head[j..j + |Marker|];
      assert !OccursAt(head, Marker, j);
    }
    assert StartsWith(h, [Hash]);
    DemangleMangled(h, k);
    assert h[k + |Marker|..] == Encode(fragment, special);
    UnescapeEncode(fragment, special);
  }

  /** The marker cannot occur in a text whose only `e` is in a tail shorter
      than the marker. */
  lemma NoMarkerWithoutE(s: JSString, t: JSString)
    requires Marker[0] !in s && |t| < |Marker|
    ensures !Contains(s + t, Marker)
  {
    forall j ensures !OccursAt(s + t, Marker, j) {
      if 0 <= j && j + |Marker| <= |s + t| {
        assert j < |s|;
        assert (s + t)[j..j + |Marker|][0] == s[j];
      }
    }
  }

  /** `viv-id-:002fdoc:002`: the start of the renderer's rewrite of a link in
      `doc.html`, up to the marker. */
  const DocPrefix: JSString := [0x76, 0x69, 0x76, 0x2D, 0x69, 0x64, 0x2D, 0x3A, 0x30, 0x30, 0x32, 0x66, 0x64, 0x6F, 0x63, 0x3A, 0x30, 0x30, 0x32]
  /** `x y` */
  const SpacedFragment: JSString := [0x78, 0x20, 0x79]
  /** `x:0020y` */
  const SpacedFragmentEscaped: JSString := [0x78, 0x3A, 0x30, 0x30, 0x32, 0x30, 0x79]

  /** Escaping the colon and the space turns `x y` into `x:0020y`. */
  lemma EncodeSpacedFragment()
    ensures Encode(SpacedFragment, {Colon, 0x20}) == SpacedFragmentEscaped
  {
    EscapeDigits(0x20, 0, 0, 2, 0);
  }

  /** `#viv-id-:002fdoc:002ehtml:0023x:0020y` demangles to `#x y`. */
  lemma DemangleExample()
    ensures Demangle(Some([Hash] + DocPrefix + Marker + SpacedFragmentEscaped)) == Some([Hash] + SpacedFragment)
  {
    EncodeSpacedFragment();
    NoMarkerWithoutE([Hash] + DocPrefix, Marker[..|Marker| - 1]);
    DemangleOfMangled(DocPrefix, SpacedFragment, {Colon, 0x20});
  }

  /** Demangling leaves an href unchanged exactly when it is `null`, does not
      start with `#`, or has no marker: otherwise it gets strictly shorter. */
  lemma DemangleFixedPoint(g: Option<JSString>)
    ensures Demangle(g) == g <==> g.None? || !StartsWith(g.value, [Hash]) || !Contains(g.value, Marker)
  {
    if g.Some? && StartsWith(g.value, [Hash]) && Contains(g.value, Marker) {
      var k := IndexOf(g.value, Marker);
      assert |Unescape(g.value[k + |Marker|..])| <= |g.value| - k - |Marker|;
    }
  }

  /** Demangling twice equals demangling once exactly when the demangled href
      is one that demangling leaves alone. */
  lemma DemangleIdempotentIff(h: Option<JSString>)
    ensures Demangle(Demangle(h)) == Demangle(h) <==>
      var g := Demangle(h); g.None? || !StartsWith(g.value, [Hash]) || !Contains(g.value, Marker)
  {
    DemangleFixedPoint(Demangle(h));
  }

  /** When the decoded fragment itself contains the marker, demangling again
      changes the href. */
  lemma DemangleChangesAgain(h: Option<JSString>, f: JSString)
    requires Demangle(h) == Some([Hash] + f) && Contains(f, Marker)
    ensures Demangle(Demangle(h)) != Demangle(h)
  {
    var g := [Hash] + f;
    var j :| OccursAt(f, Marker, j);
    assert g[j + 1..j + 1 + |Marker|] == f[j..j + |Marker|];
    assert OccursAt(g, Marker, j + 1);
    assert g[..1] == [Hash];
    var k := IndexOf(g, Marker);
    assert |Unescape(g[k + |Marker|..])| <= |g| - k - |Marker|;
  }

  /** An href that is `#`, the marker and an encoded fragment demangles to
      `#` and the fragment. */
  lemma DemangleMarkerFirst(fragment: JSString, special: set<CodeUnit>)
    requires Colon in special
    ensures Demangle(Some([Hash] + Marker + Encode(fragment, special))) == Some([Hash] + fragment)
  {
    NoMarkerWithoutE([Hash], Marker[..|Marker| - 1]);
    assert [Hash] + [] + Marker[..|Marker| - 1] == [Hash] + Marker[..|Marker| - 1];
    DemangleOfMangled([], fragment, special);
    assert [Hash] + [] + Marker + Encode(fragment, special) == [Hash] + Marker + Encode(fragment, special);
  }

  /** The first demangling of `#ehtml:0023ehtml:003a0023x` exposes the
      marker `ehtml:0023` again. */
  lemma DemangleExposesMarker()
    ensures Demangle(Some([Hash] + Marker + Encode(Marker + [0x78], {Colon}))) == Some([Hash] + Marker + [0x78])
  {
    DemangleMarkerFirst(Marker + [0x78], {Colon});
    assert [Hash] + (Marker + [0x78]) == [Hash] + Marker + [0x78];
  }

  /** `#ehtml:0023x` demangles to `#x`. */
  lemma DemangleMarkerX()
    ensures Demangle(Some([Hash] + Marker + [0x78])) == Some([Hash, 0x78])
  {
    DemangleMarkerFirst([0x78], {Colon});
    EncodeNothingSpecial([0x78], {Colon});
    assert [Hash] + [0x78] == [Hash, 0x78];
  }

  /** For example, the decoded fragment of `#ehtml:0023ehtml:003a0023x` is
      `ehtml:0023x`, which carries the marker again. */
  lemma DemangleNotIdempotentExample()
    ensures var once := Demangle(Some([Hash] + Marker + Encode(Marker + [0x78], {Colon})));
            once == Some([Hash] + Marker + [0x78]) && Demangle(once) == Some([Hash, 0x78])
  {
    DemangleExposesMarker();
    DemangleMarkerX();
  }

  /** Links into a document that is not an `.html` file are not demangled:
      `#v:002exhtml:0023f`, a link into `v.xhtml`, is returned unchanged,
      because its `e` is followed by `x`, not by the `h` of the marker. */
  lemma DemangleXhtmlPassesThrough()
    ensures var h := [0x23, 0x76, 0x3A, 0x30, 0x30, 0x32] + [0x65, 0x78] + [0x68, 0x74, 0x6D, 0x6C, 0x3A, 0x30, 0x30, 0x32, 0x33, 0x66];
            Demangle(Some(h)) == Some(h)
  {
    var a: JSString := [0x23, 0x76, 0x3A, 0x30, 0x30, 0x32];
    var c: JSString := [0x68, 0x74, 0x6D, 0x6C, 0x3A, 0x30, 0x30, 0x32, 0x33, 0x66];
    var h := a + [0x65, 0x78] + c;
    forall j ensures !OccursAt(h, Marker, j) {
      if 0 <= j && j + |Marker| <= |h| {
        assert h[j..j + |Marker|][0] == h[j] && h[j..j + |Marker|][1] == h[j + 1];
        if j < |a| {
          assert h[j] == a[j];
        } else if j > |a| + 1 {
          assert h[j] == c[j - |a| - 2];
        }
      }
    }
  }
}
