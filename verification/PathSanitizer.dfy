/** The RFC 3986 path canonicaliser (server/src/middleware/path_sanitizer.rs). A path is the bytes of
    its UTF-8 text. Bytes are pushed to the output as characters, so the output is a text of
    characters below 256 whose own bytes differ from it outside ASCII. */
module PathSanitizer {
  import opened Prelude

  /** One byte of a UTF-8 text, as the character with that number. */
  type Octet = c: char | c as int < 256

  type Path = seq<Octet>

  datatype Error =
    | IllegalNullByte
    | IllegalEncodedSlash
    | IllegalBackslash
    | PathTraversal
    | InvalidEncoding
    | DoubleEncoding
    | InvalidPath

  // ------------------------------------------------------------------------- characters

  function HexDigitToVal(c: Octet): Result<nat, Error> {
    if '0' <= c <= '9' then Ok(c as int - '0' as int)
    else if 'a' <= c <= 'f' then Ok(c as int - 'a' as int + 10)
    else if 'A' <= c <= 'F' then Ok(c as int - 'A' as int + 10)
    else Err(InvalidEncoding)
  }

  predicate IsHex(c: Octet) {
    HexDigitToVal(c).Ok?
  }

  /** The byte an escape with digits `h1` and `h2` stands for. */
  function Value(h1: Octet, h2: Octet): byte
    requires IsHex(h1) && IsHex(h2)
  {
    HexDigitToVal(h1).value * 16 + HexDigitToVal(h2).value
  }

  /** ALPHA / DIGIT / "-" / "." / "_" / "~". */
  predicate IsUnreserved(b: byte) {
    || 'a' as int <= b <= 'z' as int
    || 'A' as int <= b <= 'Z' as int
    || '0' as int <= b <= '9' as int
    || b in {'-' as int, '.' as int, '_' as int, '~' as int}
  }

  // --------------------------------------------------------------------------- patterns

  predicate OccursAt(s: Path, pattern: Path, i: nat) {
    i + |pattern| <= |s| && s[i..i + |pattern|] == pattern
  }

  predicate Contains(s: Path, pattern: Path) {
    exists i :: 0 <= i <= |s| && OccursAt(s, pattern, i)
  }

  predicate ContainsIgnoringCase(s: Path, pattern: Path) {
    Contains(ToLower(s), pattern)
  }

  predicate HasDoubleEncoding(s: Path) {
    || ContainsIgnoringCase(s, "%252e")
    || ContainsIgnoringCase(s, "%252f")
    || ContainsIgnoringCase(s, "%2500")
    || ContainsIgnoringCase(s, "%255c")
  }

  /** If there is a `%` at `i`, two hex digits follow and they do not stand for a byte of `avoid`. */
  predicate EscapeOk(s: Path, i: nat, avoid: set<byte>)
    requires i < |s|
  {
    s[i] == '%' ==> i + 2 < |s| && IsHex(s[i + 1]) && IsHex(s[i + 2]) && Value(s[i + 1], s[i + 2]) !in avoid
  }

  /** Every `%` starts an escape, and no escape stands for a byte of `avoid`. */
  predicate Avoids(s: Path, avoid: set<byte>) {
    forall i :: 0 <= i < |s| ==> EscapeOk(s, i, avoid)
  }

  predicate ValidEscapes(s: Path) {
    Avoids(s, {})
  }

  lemma AvoidsAppend(a: Path, b: Path, avoid: set<byte>)
    requires Avoids(a, avoid) && Avoids(b, avoid)
    ensures Avoids(a + b, avoid)
  {
    forall i | 0 <= i < |a + b| ensures EscapeOk(a + b, i, avoid) {
      if i < |a| { assert EscapeOk(a, i, avoid); } else { assert EscapeOk(b, i - |a|, avoid); }
    }
  }

  lemma AvoidsSuffix(s: Path, n: nat, avoid: set<byte>)
    requires n <= |s| && Avoids(s, avoid)
    ensures Avoids(s[n..], avoid)
  {
    forall i | 0 <= i < |s| - n ensures EscapeOk(s[n..], i, avoid) {
      assert EscapeOk(s, n + i, avoid);
    }
  }

  /** Cutting before a character that is no hex digit splits no escape. */
  lemma AvoidsPrefix(s: Path, n: nat, avoid: set<byte>)
    requires n <= |s| && Avoids(s, avoid) && (n < |s| ==> !IsHex(s[n]))
    ensures Avoids(s[..n], avoid)
  {
    forall i | 0 <= i < n ensures EscapeOk(s[..n], i, avoid) {
      assert EscapeOk(s, i, avoid);
    }
  }

  lemma AvoidsFewer(s: Path, avoid: set<byte>, fewer: set<byte>)
    requires Avoids(s, avoid) && fewer <= avoid
    ensures Avoids(s, fewer)
  {
    forall i | 0 <= i < |s| ensures EscapeOk(s, i, fewer) {
      assert EscapeOk(s, i, avoid);
    }
  }

  // --------------------------------------------------------------------- one segment

  /** The canonical spelling of one escape: the character itself if unreserved, otherwise the
      escape in upper case. */
  function NormalEscape(h1: Octet, h2: Octet): Path
    requires IsHex(h1) && IsHex(h2)
  {
    if IsUnreserved(Value(h1, h2)) then [Value(h1, h2) as char] else ['%', UpperChar(h1), UpperChar(h2)]
  }

  /** A segment with every escape spelled canonically. */
  function Normal(s: Path): Path
    requires ValidEscapes(s)
  {
    if |s| == 0 then []
    else if s[0] == '%' then
      assert EscapeOk(s, 0, {});
      AvoidsSuffix(s, 3, {});
      NormalEscape(s[1], s[2]) + Normal(s[3..])
    else
      AvoidsSuffix(s, 1, {});
      [s[0]] + Normal(s[1..])
  }

  /** The bytes a segment stands for when every escape is decoded. */
  function Decode(s: Path): seq<byte>
    requires ValidEscapes(s)
  {
    if |s| == 0 then []
    else if s[0] == '%' then
      assert EscapeOk(s, 0, {});
      AvoidsSuffix(s, 3, {});
      [Value(s[1], s[2])] + Decode(s[3..])
    else
      AvoidsSuffix(s, 1, {});
      [s[0] as int] + Decode(s[1..])
  }

  /** How `Normal` unfolds at any position an escape may start at. */
  lemma NormalAt(s: Path, i: nat)
    requires i < |s| && ValidEscapes(s)
    ensures s[i] == '%' ==> i + 2 < |s| && IsHex(s[i + 1]) && IsHex(s[i + 2])
    ensures var n := if s[i] == '%' then 3 else 1;
            && ValidEscapes(s[i..]) && ValidEscapes(s[i + n..])
            && Normal(s[i..]) == (if s[i] == '%' then NormalEscape(s[i + 1], s[i + 2]) else [s[i]]) + Normal(s[i + n..])
  {
    var n := if s[i] == '%' then 3 else 1;
    assert EscapeOk(s, i, {});
    AvoidsSuffix(s, i, {});
    AvoidsSuffix(s, i + n, {});
    assert s[i..][n..] == s[i + n..];
  }

  lemma DecodeAt(s: Path, i: nat)
    requires i < |s| && ValidEscapes(s)
    ensures s[i] == '%' ==> i + 2 < |s| && IsHex(s[i + 1]) && IsHex(s[i + 2])
    ensures var n := if s[i] == '%' then 3 else 1;
            && ValidEscapes(s[i..]) && ValidEscapes(s[i + n..])
            && Decode(s[i..]) == [if s[i] == '%' then Value(s[i + 1], s[i + 2]) else s[i] as int] + Decode(s[i + n..])
  {
    var n := if s[i] == '%' then 3 else 1;
    assert EscapeOk(s, i, {});
    AvoidsSuffix(s, i, {});
    AvoidsSuffix(s, i + n, {});
    assert s[i..][n..] == s[i + n..];
  }

  lemma NormalOfEmpty(s: Path)
    requires |s| == 0 && ValidEscapes(s)
    ensures Normal(s) == [] && Decode(s) == []
  {
  }

  method NormalizeSegment(seg: Path) returns (r: Result<Path, Error>)
    requires ValidEscapes(seg)
    ensures r == Ok(Normal(seg))
  {
    hide Normal, ValidEscapes, Avoids;
    var res: Path := [];
    var i := 0;
    assert seg[0..] == seg;
    while i < |seg|
      invariant 0 <= i <= |seg|
      invariant ValidEscapes(seg[i..])
      invariant Normal(seg) == res + Normal(seg[i..])
    {
      NormalAt(seg, i);
      if seg[i] == '%' {
        var h1, h2 := seg[i + 1], seg[i + 2];
        // the caller has checked every escape, so neither digit lookup fails
        var hexVal := HexDigitToVal(h1).value * 16 + HexDigitToVal(h2).value;
        if IsUnreserved(hexVal) {
          res := res + [hexVal as char];
        } else {
          res := res + ['%', UpperChar(h1), UpperChar(h2)];
        }
        i := i + 3;
      } else {
        res := res + [seg[i]];
        i := i + 1;
      }
    }
    assert Normal(seg[i..]) == [] by { NormalOfEmpty(seg[i..]); }
    assert res + [] == res;
    return Ok(res);
  }

  lemma NormalEscapeOk(h1: Octet, h2: Octet, avoid: set<byte>)
    requires IsHex(h1) && IsHex(h2) && Value(h1, h2) !in avoid
    ensures Avoids(NormalEscape(h1, h2), avoid)
    ensures Normal(NormalEscape(h1, h2)) == NormalEscape(h1, h2)
    ensures Decode(NormalEscape(h1, h2)) == [Value(h1, h2)]
  {
    var e := NormalEscape(h1, h2);
    assert IsHex(UpperChar(h1)) && IsHex(UpperChar(h2)) && Value(UpperChar(h1), UpperChar(h2)) == Value(h1, h2);
    assert EscapeOk(e, 0, avoid);
    forall i | 0 <= i < |e| ensures EscapeOk(e, i, avoid) && EscapeOk(e, i, {}) {
    }
    if |e| == 1 {
      assert e[1..] == [];
    } else {
      assert e[3..] == [];
    }
  }

  /** Concatenation of segments without cutting an escape. */
  lemma NormalAppend(a: Path, b: Path)
    requires ValidEscapes(a) && ValidEscapes(b)
    ensures ValidEscapes(a + b)
    ensures Normal(a + b) == Normal(a) + Normal(b)
    ensures Decode(a + b) == Decode(a) + Decode(b)
  {
    NormalOfAppend(a, b);
    DecodeOfAppend(a, b);
  }

  /** The length of the first escape or other character, and its canonical spelling. */
  function Width(s: Path): nat
    requires |s| > 0
  {
    if s[0] == '%' then 3 else 1
  }

  function Head(s: Path): Path
    requires |s| > 0 && EscapeOk(s, 0, {})
  {
    if s[0] == '%' then NormalEscape(s[1], s[2]) else [s[0]]
  }

  lemma NormalUnfolds(s: Path)
    requires |s| > 0 && ValidEscapes(s)
    ensures Width(s) <= |s| && ValidEscapes(s[Width(s)..]) && EscapeOk(s, 0, {})
    ensures Normal(s) == Head(s) + Normal(s[Width(s)..])
  {
    assert EscapeOk(s, 0, {});
    AvoidsSuffix(s, Width(s), {});
  }

  lemma HeadOfAppend(a: Path, b: Path)
    requires |a| > 0 && EscapeOk(a, 0, {}) && Width(a) <= |a|
    ensures EscapeOk(a + b, 0, {}) && Width(a + b) == Width(a) && Head(a + b) == Head(a)
    ensures (a + b)[Width(a)..] == a[Width(a)..] + b
  {
  }

  lemma {:induction false} NormalOfAppend(a: Path, b: Path)
    requires ValidEscapes(a) && ValidEscapes(b)
    ensures ValidEscapes(a + b) && Normal(a + b) == Normal(a) + Normal(b)
  {
    AvoidsAppend(a, b, {});
    hide Normal, ValidEscapes, Avoids, Head, Width, EscapeOk;
    if |a| == 0 {
      NormalOfEmpty(a);
      assert a + b == b;
    } else {
      NormalUnfolds(a);
      NormalUnfolds(a + b);
      HeadOfAppend(a, b);
      var rest := a[Width(a)..];
      NormalSmaller(a);
      NormalOfAppend(rest, b);
      assert Head(a) + (Normal(rest) + Normal(b)) == Head(a) + Normal(rest) + Normal(b);
    }
  }

  lemma NormalSmaller(s: Path)
    requires |s| > 0 && Width(s) <= |s|
    ensures |s[Width(s)..]| < |s|
  {
  }

  lemma {:induction false} DecodeOfAppend(a: Path, b: Path)
    requires ValidEscapes(a) && ValidEscapes(b)
    ensures ValidEscapes(a + b) && Decode(a + b) == Decode(a) + Decode(b)
  {
    AvoidsAppend(a, b, {});
    hide Normal, Decode, ValidEscapes, Avoids, Value, IsHex;
    if |a| == 0 {
      NormalOfEmpty(a);
      assert a + b == b;
    } else {
      DecodeAt(a, 0);
      DecodeAt(a + b, 0);
      var n := if a[0] == '%' then 3 else 1;
      assert a[0..] == a && (a + b)[0..] == a + b;
      assert (a + b)[n..] == a[n..] + b;
      DecodeOfAppend(a[n..], b);
    }
  }

  /** Normalising adds no escape, keeps the decoded bytes and is a fixed point. */
  lemma {:induction false} NormalFacts(s: Path, avoid: set<byte>)
    requires ValidEscapes(s) && Avoids(s, avoid)
    ensures Avoids(Normal(s), avoid) && ValidEscapes(Normal(s))
    ensures Normal(Normal(s)) == Normal(s)
    ensures Decode(Normal(s)) == Decode(s)
  {
    if |s| == 0 {
    } else {
      var n := if s[0] == '%' then 3 else 1;
      assert EscapeOk(s, 0, avoid) && EscapeOk(s, 0, {});
      AvoidsSuffix(s, n, avoid);
      AvoidsSuffix(s, n, {});
      NormalFacts(s[n..], avoid);
      var head := if s[0] == '%' then NormalEscape(s[1], s[2]) else [s[0]];
      HeadFacts(s, avoid);
      AvoidsAppend(head, Normal(s[n..]), avoid);
      NormalAppend(head, Normal(s[n..]));
    }
  }

  lemma HeadFacts(s: Path, avoid: set<byte>)
    requires |s| > 0 && ValidEscapes(s) && Avoids(s, avoid)
    requires s[0] == '%' ==> |s| > 2 && IsHex(s[1]) && IsHex(s[2])
    ensures var head := if s[0] == '%' then NormalEscape(s[1], s[2]) else [s[0]];
            && Avoids(head, avoid) && ValidEscapes(head)
            && Normal(head) == head
            && Decode(head) == [Decode(s)[0]]
  {
    assert EscapeOk(s, 0, avoid) && EscapeOk(s, 0, {});
    if s[0] == '%' {
      NormalEscapeOk(s[1], s[2], avoid);
      NormalEscapeOk(s[1], s[2], {});
    } else {
      assert [s[0]][1..] == [];
    }
  }

  // ------------------------------------------------------------------ the whole path

  function FirstSlash(s: Path): (k: nat)
    requires '/' in s
    ensures k < |s| && s[k] == '/' && '/' !in s[..k]
  {
    if s[0] == '/' then 0 else 1 + FirstSlash(s[1..])
  }

  /** The segments between slashes, empty ones included. */
  function Split(s: Path): (segs: seq<Path>)
    ensures |segs| > 0
  {
    if '/' !in s then [s] else [s[..FirstSlash(s)]] + Split(s[FirstSlash(s) + 1..])
  }

  /** Each segment preceded by a slash. */
  function Join(segs: seq<Path>): Path {
    if |segs| == 0 then [] else ['/'] + segs[0] + Join(segs[1..])
  }

  ghost predicate AllValid(segs: seq<Path>) {
    forall i :: 0 <= i < |segs| ==> ValidEscapes(segs[i])
  }

  predicate IsTrivial(seg: Path) {
    seg == "" || seg == "."
  }

  /** The canonical segments that are kept. */
  ghost function Keep(segs: seq<Path>): seq<Path>
    requires AllValid(segs)
  {
    if |segs| == 0 then []
    else
      var last := Normal(segs[|segs| - 1]);
      Keep(segs[..|segs| - 1]) + if IsTrivial(last) then [] else [last]
  }

  ghost predicate HasTraversal(segs: seq<Path>)
    requires AllValid(segs)
  {
    exists i :: 0 <= i < |segs| && Normal(segs[i]) == ".."
  }

  predicate EndsWith(s: Path, suffix: Path) {
    |suffix| <= |s| && s[|s| - |suffix|..] == suffix
  }

  predicate TrailingSlash(raw: Path) {
    |raw| > 1 && (EndsWith(raw, "/") || EndsWith(raw, "/."))
  }

  function Render(segs: seq<Path>, trailing: bool): Path {
    if |segs| == 0 then "/" else Join(segs) + if trailing then "/" else ""
  }

  /** The first check on the raw text that fails, in the order they are made. */
  function RawError(raw: Path): Option<Error> {
    if '\0' in raw then Some(IllegalNullByte)
    else if '\\' in raw then Some(IllegalBackslash)
    else if ContainsIgnoringCase(raw, "%00") then Some(IllegalNullByte)
    else if ContainsIgnoringCase(raw, "%2f") then Some(IllegalEncodedSlash)
    else if ContainsIgnoringCase(raw, "%5c") then Some(IllegalBackslash)
    else if HasDoubleEncoding(raw) then Some(DoubleEncoding)
    else if !ValidEscapes(raw) then Some(InvalidEncoding)
    else None
  }

  /** A slash-free piece made of characters of `s`. */
  predicate PartOf(seg: Path, s: Path) {
    '/' !in seg && forall c :: c in seg ==> c in s
  }

  lemma {:induction false} SplitValid(s: Path, avoid: set<byte>)
    requires Avoids(s, avoid)
    ensures forall i :: 0 <= i < |Split(s)| ==> Avoids(Split(s)[i], avoid)
    ensures forall i :: 0 <= i < |Split(s)| ==> PartOf(Split(s)[i], s)
  {
    if '/' in s {
      var k := FirstSlash(s);
      AvoidsPrefix(s, k, avoid);
      AvoidsSuffix(s, k + 1, avoid);
      SplitValid(s[k + 1..], avoid);
      hide Avoids;
      var tail := Split(s[k + 1..]);
      forall i | 0 <= i < |Split(s)| ensures PartOf(Split(s)[i], s) && Avoids(Split(s)[i], avoid) {
        if i > 0 {
          assert Split(s)[i] == tail[i - 1];
          assert PartOf(tail[i - 1], s[k + 1..]);
        } else {
          assert Split(s)[0] == s[..k];
        }
      }
    }
  }

  /** What the canonicaliser returns. */
  ghost function Sanitize(raw: Path): Result<Path, Error> {
    if raw == "" then Ok("/")
    else if raw[0] != '/' then Err(InvalidPath)
    else if RawError(raw).Some? then Err(RawError(raw).value)
    else
      SplitValid(raw, {});
      var segs := Split(raw);
      if HasTraversal(segs) then Err(PathTraversal) else Ok(Render(Keep(segs), TrailingSlash(raw)))
  }

  /** The loop that checks every `%` for two hex digits, skipping over escapes. */
  method CheckEscapes(bytes: Path) returns (ok: bool)
    ensures ok == ValidEscapes(bytes)
  {
    var i := 0;
    while i < |bytes|
      invariant 0 <= i <= |bytes|
      invariant forall j :: 0 <= j < i ==> EscapeOk(bytes, j, {})
    {
      if bytes[i] == '%' {
        if i + 2 >= |bytes| || !IsHex(bytes[i + 1]) || !IsHex(bytes[i + 2]) {
          assert !EscapeOk(bytes, i, {});
          return false;
        }
        i := i + 3;
      } else {
        i := i + 1;
      }
    }
    return true;
  }

  method SanitizeAndNormalizePath(raw: Path) returns (r: Result<Path, Error>)
    ensures r == Sanitize(raw)
  {
    hide ContainsIgnoringCase, HasDoubleEncoding, Avoids, Normal, ValidEscapes, TrailingSlash, Split;
    if raw == "" { return Ok("/"); }
    if raw[0] != '/' { return Err(InvalidPath); }
    if '\0' in raw { return Err(IllegalNullByte); }
    if '\\' in raw { return Err(IllegalBackslash); }
    if ContainsIgnoringCase(raw, "%00") { return Err(IllegalNullByte); }
    if ContainsIgnoringCase(raw, "%2f") { return Err(IllegalEncodedSlash); }
    if ContainsIgnoringCase(raw, "%5c") { return Err(IllegalBackslash); }
    if HasDoubleEncoding(raw) { return Err(DoubleEncoding); }
    var valid := CheckEscapes(raw);
    if !valid { return Err(InvalidEncoding); }

    var trailing := TrailingSlash(raw);
    var segs := Split(raw);
    AllSegmentsValid(raw);
    var kept, traversal := CollectSegments(segs);
    if traversal { return Err(PathTraversal); }
    if |kept| == 0 { return Ok("/"); }
    var result := JoinSegments(kept);
    if trailing {
      result := result + ['/'];
    }
    assert Join(kept) + "" == Join(kept);
    return Ok(result);
  }

  /** The loop that writes the kept segments out. */
  method JoinSegments(segs: seq<Path>) returns (result: Path)
    ensures result == Join(segs)
  {
    hide Join;
    result := [];
    var i := 0;
    assert segs[0..] == segs;
    while i < |segs|
      invariant 0 <= i <= |segs|
      invariant result + Join(segs[i..]) == Join(segs)
    {
      JoinUnfolds(segs, i);
      result := result + ['/'] + segs[i];
      i := i + 1;
    }
    JoinUnfolds(segs, i);
    assert result + [] == result;
  }

  lemma JoinUnfolds(segs: seq<Path>, i: nat)
    requires i <= |segs|
    ensures i < |segs| ==> Join(segs[i..]) == ['/'] + segs[i] + Join(segs[i + 1..])
    ensures i == |segs| ==> Join(segs[i..]) == []
  {
    if i < |segs| { assert segs[i..][1..] == segs[i + 1..]; }
  }

  lemma AllSegmentsValid(raw: Path)
    requires ValidEscapes(raw)
    ensures AllValid(Split(raw))
  {
    SplitValid(raw, {});
  }

  /** The loop over segments: stops at the first one that is `..`, skips the trivial ones. */
  method CollectSegments(segs: seq<Path>) returns (kept: seq<Path>, traversal: bool)
    requires AllValid(segs)
    ensures traversal == HasTraversal(segs)
    ensures !traversal ==> kept == Keep(segs)
  {
    hide Normal, ValidEscapes;
    kept := [];
    var i := 0;
    while i < |segs|
      invariant 0 <= i <= |segs|
      invariant forall j :: 0 <= j < i ==> Normal(segs[j]) != ".."
      invariant AllValid(segs[..i]) && kept == Keep(segs[..i])
    {
      assert segs[..i + 1][..i] == segs[..i];
      var seg := segs[i];
      i := i + 1;
      if seg == "" {
        NormalOfEmpty(seg);
        continue;
      }
      var normalized := NormalizeSegment(seg);
      if IsTrivial(normalized.value) { continue; }
      if normalized.value == ".." { return kept, true; }
      kept := kept + [normalized.value];
    }
    assert segs[..i] == segs;
    traversal := false;
  }
}
