/** What the tables and checks of the canonicaliser are, in terms of single characters: hex digits,
    unreserved characters, trailing slashes, and which error a refused path gets. */
module PathErrors {
  import opened Prelude
  import opened PathSanitizer
  import opened PathSanitizerLaws

  const HEX_UPPER: Path := "0123456789ABCDEF"
  const HEX_LOWER: Path := "0123456789abcdef"

  /** Section 2.1 of RFC 3986: two digits of either case give back their byte. */
  lemma HexDigits(hi: nat, lo: nat)
    requires hi < 16 && lo < 16
    ensures HexDigitToVal(HEX_UPPER[hi]) == Ok(hi) == HexDigitToVal(HEX_LOWER[hi])
    ensures IsHex(HEX_UPPER[hi]) && IsHex(HEX_LOWER[lo]) && Value(HEX_UPPER[hi], HEX_LOWER[lo]) == 16 * hi + lo
  {
    HexDigit(hi);
    HexDigit(lo);
  }

  lemma HexDigit(v: nat)
    requires v < 16
    ensures HexDigitToVal(HEX_UPPER[v]) == Ok(v) == HexDigitToVal(HEX_LOWER[v])
  {
  }

  /** Nothing else is a hex digit. */
  lemma OnlyHexDigits(c: Octet)
    ensures IsHex(c) <==> c in HEX_UPPER || c in HEX_LOWER
  {
    if IsHex(c) {
      var v := HexDigitToVal(c).value;
      assert HEX_UPPER[v] == c || HEX_LOWER[v] == c;
    }
  }

  /** Section 2.3 of RFC 3986: letters, digits, and four marks. */
  predicate InUnreservedSet(c: char) {
    || c in "ABCDEFGHIJKLM" || c in "NOPQRSTUVWXYZ"
    || c in "abcdefghijklm" || c in "nopqrstuvwxyz"
    || c in "0123456789" || c in "-._~"
  }

  lemma UnreservedIs(b: byte)
    ensures IsUnreserved(b) <==> InUnreservedSet(b as char)
  {
  }

  /** A path asks for a trailing slash exactly when its last segment is empty or the text `.`. */
  lemma TrailingIff(raw: Path)
    requires |raw| > 1 && raw[0] == '/'
    ensures TrailingSlash(raw) <==> var segs := Split(raw); segs[|segs| - 1] == "" || segs[|segs| - 1] == "."
  {
    var k := LastSlash(raw);
    var last := raw[k + 1..];
    LastSegment(raw, k);
    assert raw == raw[..k] + ['/'] + last;
    hide Split;
    if IsTrivial(last) {
      assert last == "" ==> raw[|raw| - 1..] == "/";
      assert last == "." ==> raw[|raw| - 2..] == "/.";
    } else {
      NoTrailing(raw[..k], last);
    }
  }

  lemma {:induction false} LastSlash(s: Path) returns (k: nat)
    requires '/' in s
    ensures k < |s| && s[k] == '/' && '/' !in s[k + 1..]
  {
    var n := |s| - 1;
    if s[n] == '/' {
      k := n;
    } else {
      assert s == s[..n] + [s[n]];
      k := LastSlash(s[..n]);
      assert s[k + 1..] == s[..n][k + 1..] + [s[n]];
    }
  }

  lemma {:induction false} LastSegment(s: Path, k: nat)
    requires k < |s| && s[k] == '/' && '/' !in s[k + 1..]
    ensures Split(s)[|Split(s)| - 1] == s[k + 1..]
  {
    var f := FirstSlash(s);
    var rest := s[f + 1..];
    if f == k {
      assert Split(s) == [s[..k]] + [rest];
    } else {
      assert f < k;
      assert rest[k - f - 1..][1..] == s[k + 1..];
      assert rest[k - f..] == s[k + 1..];
      LastSegment(rest, k - f - 1);
      assert Split(s) == [s[..f]] + Split(rest);
    }
  }

  /** The text shows a percent sign and the two characters, in either case. */
  predicate ShowsText(raw: Path, a: Octet, b: Octet) {
    exists i :: 0 <= i && i + 2 < |raw| && raw[i] == '%' && SameLetter(raw[i + 1], a) && SameLetter(raw[i + 2], b)
  }

  lemma SearchIs(raw: Path, a: Octet, b: Octet)
    requires LowerChar(a) == a && LowerChar(b) == b
    ensures ContainsIgnoringCase(raw, ['%', a, b]) <==> ShowsText(raw, a, b)
  {
    var low, pattern := ToLower(raw), ['%', a, b];
    forall i | 0 <= i && i + 2 < |raw|
      ensures OccursAt(low, pattern, i) <==> raw[i] == '%' && SameLetter(raw[i + 1], a) && SameLetter(raw[i + 2], b)
    {
      assert low[i..i + 3] == [low[i], low[i + 1], low[i + 2]];
      CaseFolds(raw[i + 1], a);
      CaseFolds(raw[i + 2], b);
    }
    hide ToLower, SameLetter, LowerChar;
    if ContainsIgnoringCase(raw, pattern) {
      var i :| 0 <= i <= |low| && OccursAt(low, pattern, i);
      assert i + 2 < |raw| && OccursAt(low, pattern, i);
      assert raw[i] == '%' && SameLetter(raw[i + 1], a) && SameLetter(raw[i + 2], b);
      assert ShowsText(raw, a, b);
    }
    if ShowsText(raw, a, b) {
      var i :| 0 <= i && i + 2 < |raw| && raw[i] == '%' && SameLetter(raw[i + 1], a) && SameLetter(raw[i + 2], b);
      assert OccursAt(low, pattern, i);
      assert ContainsIgnoringCase(raw, pattern);
    }
  }

  /** Which error a path gets: the first of the checks that fails, each by what it looks for. */
  lemma ErrorsInOrder(raw: Path)
    requires raw != ""
    ensures var r := Sanitize(raw);
            if raw[0] != '/' then r == Err(InvalidPath)
            else if '\0' in raw then r == Err(IllegalNullByte)
            else if '\\' in raw then r == Err(IllegalBackslash)
            else if ShowsText(raw, '0', '0') then r == Err(IllegalNullByte)
            else if ShowsText(raw, '2', 'f') then r == Err(IllegalEncodedSlash)
            else if ShowsText(raw, '5', 'c') then r == Err(IllegalBackslash)
            else if HasDoubleEncoding(raw) then r == Err(DoubleEncoding)
            else if !ValidEscapes(raw) then r == Err(InvalidEncoding)
            else AllValid(Split(raw)) && (r == Err(PathTraversal) <==> exists i :: 0 <= i < |Split(raw)| && Decode(Split(raw)[i]) == [DOT, DOT])
                 && (r.Err? ==> r.error == PathTraversal)
  {
    SearchIs(raw, '0', '0');
    SearchIs(raw, '2', 'f');
    SearchIs(raw, '5', 'c');
    hide ContainsIgnoringCase, HasDoubleEncoding, ShowsText, Render, Keep, Normal, Decode, TrailingSlash;
    if ValidEscapes(raw) {
      SplitValid(raw, {});
      var segs := Split(raw);
      hide Split, Avoids;
      forall i | 0 <= i < |segs| ensures Normal(segs[i]) == ".." <==> Decode(segs[i]) == [DOT, DOT] {
        assert ValidEscapes(segs[i]);
        DotsByMeaning(segs[i]);
      }
    }
  }
}
