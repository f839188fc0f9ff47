/** What sanitising a path preserves, which paths it accepts, and when two of them come out equal. */
module PathSanitizerLaws {
  import opened Prelude
  import opened PathSanitizer

  const SLASH: byte := 0x2F
  const BACKSLASH: byte := 0x5C
  const PERCENT: byte := 0x25
  const DOT: byte := 0x2E

  /** Bytes that may appear in no segment, however spelled. */
  const FORBIDDEN: set<byte> := {0, SLASH, BACKSLASH}

  // ----------------------------------------------------------- textual checks on escapes

  lemma HexLower(x: Octet, a: Octet)
    requires IsHex(x) && IsHex(a) && LowerChar(a) == a
    ensures LowerChar(x) == a <==> HexDigitToVal(x) == HexDigitToVal(a)
  {
  }

  /** On a string whose escapes are valid, searching the lower-cased text for an escape finds
      exactly the escapes of that byte. */
  lemma FindsEscape(s: Path, a: Octet, b: Octet)
    requires ValidEscapes(s) && IsHex(a) && IsHex(b) && LowerChar(a) == a && LowerChar(b) == b
    ensures ContainsIgnoringCase(s, ['%', a, b]) <==> !Avoids(s, {Value(a, b)})
  {
    var low, pattern, v := ToLower(s), ['%', a, b], Value(a, b);
    forall i | 0 <= i < |s| ensures OccursAt(low, pattern, i) <==> !EscapeOk(s, i, {v}) {
      assert EscapeOk(s, i, {});
      FindsEscapeAt(s, a, b, i);
    }
    assert !OccursAt(low, pattern, |s|);
    hide OccursAt, EscapeOk, ToLower, Value, IsHex, LowerChar;
    if !Avoids(s, {v}) {
      var i :| 0 <= i < |s| && !EscapeOk(s, i, {v});
      assert OccursAt(low, pattern, i);
    }
  }

  lemma FindsEscapeAt(s: Path, a: Octet, b: Octet, i: nat)
    requires i < |s| && EscapeOk(s, i, {}) && IsHex(a) && IsHex(b) && LowerChar(a) == a && LowerChar(b) == b
    ensures OccursAt(ToLower(s), ['%', a, b], i) <==> !EscapeOk(s, i, {Value(a, b)})
  {
    var low := ToLower(s);
    if s[i] == '%' {
      assert low[i..i + 3] == [low[i], low[i + 1], low[i + 2]];
      HexLower(s[i + 1], a);
      HexLower(s[i + 2], b);
      SameDigits(s[i + 1], s[i + 2], a, b);
      hide HexDigitToVal, LowerChar;
      assert low[i] == LowerChar('%');
    } else if i + 3 <= |s| {
      assert low[i..i + 3][0] == low[i] != '%';
    }
  }

  /** An escape determines its digits' values. */
  lemma SameDigits(h1: Octet, h2: Octet, a: Octet, b: Octet)
    requires IsHex(h1) && IsHex(h2) && IsHex(a) && IsHex(b)
    ensures Value(h1, h2) == Value(a, b) <==> HexDigitToVal(h1) == HexDigitToVal(a) && HexDigitToVal(h2) == HexDigitToVal(b)
    ensures LowerChar('%') == '%'
  {
  }

  lemma AvoidsUnion(s: Path, a: set<byte>, b: set<byte>)
    ensures Avoids(s, a + b) <==> Avoids(s, a) && Avoids(s, b)
  {
    if Avoids(s, a + b) {
      AvoidsFewer(s, a + b, a);
      AvoidsFewer(s, a + b, b);
    } else if Avoids(s, a) && Avoids(s, b) {
      forall i | 0 <= i < |s| ensures EscapeOk(s, i, a + b) {
        assert EscapeOk(s, i, a) && EscapeOk(s, i, b);
      }
    }
  }

  lemma LongerPattern(s: Path, pattern: Path, longer: Path)
    requires pattern <= longer && ContainsIgnoringCase(s, longer)
    ensures ContainsIgnoringCase(s, pattern)
  {
    var low := ToLower(s);
    var i :| 0 <= i <= |low| && OccursAt(low, longer, i);
    OccursShorter(low, pattern, longer, i);
  }

  lemma OccursShorter(s: Path, pattern: Path, longer: Path, i: nat)
    requires pattern <= longer && OccursAt(s, longer, i)
    ensures OccursAt(s, pattern, i)
  {
    assert s[i..i + |longer|][..|pattern|] == s[i..i + |pattern|];
  }

  /** A double-encoding pattern needs an encoded percent sign. */
  lemma DoubleNeedsPercent(s: Path)
    requires ValidEscapes(s) && HasDoubleEncoding(s)
    ensures ContainsIgnoringCase(s, "%25") && !Avoids(s, {PERCENT})
  {
    hide ContainsIgnoringCase;
    if ContainsIgnoringCase(s, "%252e") { LongerPattern(s, "%25", "%252e"); }
    else if ContainsIgnoringCase(s, "%252f") { LongerPattern(s, "%25", "%252f"); }
    else if ContainsIgnoringCase(s, "%2500") { LongerPattern(s, "%25", "%2500"); }
    else { LongerPattern(s, "%25", "%255c"); }
    FindsEscape(s, '2', '5');
  }

  predicate NoSpecial(s: Path) {
    '\0' !in s && '\\' !in s
  }

  /** The raw checks pass exactly on well-escaped text that avoids the forbidden bytes in both
      spellings and shows no double-encoding pattern. */
  lemma RawChecksPass(s: Path)
    ensures RawError(s).None? <==> NoSpecial(s) && Avoids(s, FORBIDDEN) && !HasDoubleEncoding(s)
  {
    hide ContainsIgnoringCase, HasDoubleEncoding;
    if Avoids(s, FORBIDDEN) { AvoidsFewer(s, FORBIDDEN, {}); }
    if ValidEscapes(s) {
      FindsEscape(s, '0', '0');
      FindsEscape(s, '2', 'f');
      FindsEscape(s, '5', 'c');
      AvoidsUnion(s, {0}, {SLASH});
      AvoidsUnion(s, {0} + {SLASH}, {BACKSLASH});
      assert {0} + {SLASH} + {BACKSLASH} == FORBIDDEN;
    }
  }

  // ------------------------------------------------------------------ canonical segments

  /** A segment the canonicaliser may put out. */
  ghost predicate Canonical(s: Path, avoid: set<byte>) {
    && ValidEscapes(s) && Avoids(s, avoid)
    && Normal(s) == s && !IsTrivial(s) && s != ".."
    && NoSpecial(s) && '/' !in s
  }

  ghost predicate AllCanonical(segs: seq<Path>, avoid: set<byte>) {
    forall i :: 0 <= i < |segs| ==> Canonical(segs[i], avoid)
  }

  /** Normalising introduces none of the characters `/`, `\` and NUL. */
  lemma {:induction false} NormalAddsNoSpecial(s: Path, c: Octet)
    requires ValidEscapes(s) && c in {'/', '\\', '\0'} && c !in s
    ensures c !in Normal(s)
  {
    if |s| == 0 {
    } else {
      NormalAt(s, 0);
      assert s[0..] == s;
      var n := if s[0] == '%' then 3 else 1;
      NormalAddsNoSpecial(s[n..], c);
      if s[0] == '%' {
        EscapeHasNoSpecial(s[1], s[2], c);
      }
    }
  }

  lemma EscapeHasNoSpecial(h1: Octet, h2: Octet, c: Octet)
    requires IsHex(h1) && IsHex(h2) && c in {'/', '\\', '\0'}
    ensures c !in NormalEscape(h1, h2)
  {
  }

  ghost predicate CleanSegments(segs: seq<Path>, avoid: set<byte>) {
    forall i :: 0 <= i < |segs| ==> Avoids(segs[i], avoid) && NoSpecial(segs[i]) && '/' !in segs[i]
  }

  lemma {:induction false} KeptAreCanonical(segs: seq<Path>, avoid: set<byte>)
    requires AllValid(segs) && CleanSegments(segs, avoid) && !HasTraversal(segs)
    ensures AllCanonical(Keep(segs), avoid)
  {
    var n := |segs|;
    if n == 0 {
    } else {
      var init, last := segs[..n - 1], segs[n - 1];
      assert forall i :: 0 <= i < n - 1 ==> init[i] == segs[i];
      KeptAreCanonical(init, avoid);
      NormalFacts(last, avoid);
      NormalAddsNoSpecial(last, '/');
      NormalAddsNoSpecial(last, '\\');
      NormalAddsNoSpecial(last, '\0');
    }
  }

  lemma {:induction false} KeepConcat(a: seq<Path>, b: seq<Path>)
    requires AllValid(a) && AllValid(b)
    ensures AllValid(a + b) && Keep(a + b) == Keep(a) + Keep(b)
  {
    if |b| == 0 {
      assert a + b == a;
    } else {
      KeepConcat(a, b[..|b| - 1]);
      assert (a + b)[..|a + b| - 1] == a + b[..|b| - 1];
    }
  }

  /** Canonical segments are kept as they are. */
  lemma {:induction false} CanonicalKept(segs: seq<Path>, avoid: set<byte>)
    requires AllCanonical(segs, avoid)
    ensures AllValid(segs) && Keep(segs) == segs && !HasTraversal(segs)
  {
    if |segs| == 0 {
    } else {
      CanonicalKept(segs[..|segs| - 1], avoid);
      assert segs == segs[..|segs| - 1] + [segs[|segs| - 1]];
    }
  }

  // ------------------------------------------------------------------- split and join

  lemma SplitAt(s: Path, k: nat)
    requires k <= |s| && '/' !in s[..k] && (k < |s| ==> s[k] == '/')
    ensures Split(s) == [s[..k]] + if k < |s| then Split(s[k + 1..]) else []
  {
    if k < |s| {
      FirstSlashIs(s, k);
    } else {
      assert s[..k] == s;
    }
  }

  lemma FirstSlashIs(s: Path, k: nat)
    requires k < |s| && s[k] == '/' && '/' !in s[..k]
    ensures '/' in s && FirstSlash(s) == k
  {
  }

  lemma {:induction false} SplitAfter(a: Path, rest: seq<Path>)
    requires '/' !in a && forall i :: 0 <= i < |rest| ==> '/' !in rest[i]
    ensures Split(a + Join(rest)) == [a] + rest
    decreases |rest|
  {
    hide Split, Join;
    var s := a + Join(rest);
    assert s[..|a|] == a;
    if |rest| == 0 {
      JoinCons(a, []);
      SplitAt(s, |a|);
    } else {
      var tail := rest[0] + Join(rest[1..]);
      assert rest == [rest[0]] + rest[1..];
      JoinCons(rest[0], rest[1..]);
      assert s == a + ['/'] + tail;
      SplitAt(s, |a|);
      assert s[|a| + 1..] == tail;
      SplitAfter(rest[0], rest[1..]);
    }
  }

  lemma {:induction false} JoinSplit(s: Path)
    ensures Join(Split(s)) == ['/'] + s
  {
    hide Split, FirstSlash;
    if '/' !in s {
      assert s[..|s|] == s;
      SplitAt(s, |s|);
      JoinCons(s, []);
    } else {
      var k := FirstSlash(s);
      SplitAt(s, k);
      JoinSplit(s[k + 1..]);
      JoinCons(s[..k], Split(s[k + 1..]));
      assert s == s[..k] + ['/'] + s[k + 1..];
    }
  }

  lemma JoinCons(first: Path, rest: seq<Path>)
    ensures Join([first] + rest) == ['/'] + first + Join(rest)
    ensures Join([]) == []
  {
    assert ([first] + rest)[1..] == rest;
  }

  lemma {:induction false} JoinAvoids(segs: seq<Path>, avoid: set<byte>)
    requires forall i :: 0 <= i < |segs| ==> Avoids(segs[i], avoid)
    ensures Avoids(Join(segs), avoid)
  {
    if |segs| == 0 {
    } else {
      JoinAvoids(segs[1..], avoid);
      assert Avoids(['/'], avoid);
      AvoidsAppend(['/'], segs[0], avoid);
      AvoidsAppend(['/'] + segs[0], Join(segs[1..]), avoid);
    }
  }

  lemma {:induction false} JoinNoSpecial(segs: seq<Path>)
    requires forall i :: 0 <= i < |segs| ==> NoSpecial(segs[i])
    ensures NoSpecial(Join(segs))
  {
    if |segs| == 0 {
    } else {
      JoinNoSpecial(segs[1..]);
    }
  }

  lemma {:induction false} JoinLast(segs: seq<Path>, last: Path)
    ensures Join(segs + [last]) == Join(segs) + ['/'] + last
  {
    if |segs| == 0 {
      assert segs + [last] == [last];
      assert [last][1..] == [];
    } else {
      JoinLast(segs[1..], last);
      assert (segs + [last])[1..] == segs[1..] + [last];
    }
  }

  /** The segment list that a rendered path splits into. */
  function Framed(segs: seq<Path>, trailing: bool): seq<Path> {
    [[]] + segs + if trailing || |segs| == 0 then [[]] else []
  }

  /** Splitting a rendered path gives its segments back. */
  lemma SplitRender(segs: seq<Path>, trailing: bool)
    requires forall i :: 0 <= i < |segs| ==> '/' !in segs[i]
    ensures Split(Render(segs, trailing)) == Framed(segs, trailing)
  {
    var all := segs + if trailing || |segs| == 0 then [[]] else [];
    assert Render(segs, trailing) == Join(all) by {
      if trailing || |segs| == 0 { JoinLast(segs, []); } else { assert all == segs; }
    }
    assert [] + Join(all) == Join(all);
    SplitAfter([], all);
    assert [[]] + all == Framed(segs, trailing);
  }

  /** A path ending in `/` and a proper segment asks for no trailing slash. */
  lemma NoTrailing(before: Path, last: Path)
    requires '/' !in last && !IsTrivial(last)
    ensures !TrailingSlash(before + ['/'] + last)
  {
    var out := before + ['/'] + last;
    assert out[|out| - 1] == last[|last| - 1];
    assert out[|out| - 1..] == [out[|out| - 1]];
    assert out[|out| - 2..] == [out[|out| - 2], out[|out| - 1]];
    if |last| == 1 {
      assert last == [last[0]];
    } else {
      assert out[|out| - 2] == last[|last| - 2];
    }
  }

  /** A rendered path asks for a trailing slash exactly when it was given one. */
  lemma TrailingRender(segs: seq<Path>, trailing: bool, avoid: set<byte>)
    requires AllCanonical(segs, avoid)
    ensures TrailingSlash(Render(segs, trailing)) <==> trailing && |segs| > 0
  {
    hide Normal, Avoids;
    var n := |segs|;
    var out := Render(segs, trailing);
    if n > 0 {
      var last := segs[n - 1];
      assert segs == segs[..n - 1] + [last];
      JoinLast(segs[..n - 1], last);
      if trailing {
        assert out[|out| - 1..] == "/";
      } else {
        assert Canonical(last, avoid);
        assert out == Join(segs);
        NoTrailing(Join(segs[..n - 1]), last);
      }
    }
  }

  lemma FramedKept(segs: seq<Path>, trailing: bool, avoid: set<byte>)
    requires AllCanonical(segs, avoid)
    ensures var all := Framed(segs, trailing); AllValid(all) && Keep(all) == segs && !HasTraversal(all)
  {
    var head: seq<Path>, tail: seq<Path> := [[]], if trailing || |segs| == 0 then [[]] else [];
    CanonicalKept(segs, avoid);
    EmptyKept(head);
    EmptyKept(tail);
    hide Keep, Normal, HasTraversal, AllValid, AllCanonical;
    TraversalConcat(head, segs);
    TraversalConcat(head + segs, tail);
    KeepConcat(head, segs);
    KeepConcat(head + segs, tail);
  }

  lemma TraversalConcat(a: seq<Path>, b: seq<Path>)
    requires AllValid(a) && AllValid(b) && !HasTraversal(a) && !HasTraversal(b)
    ensures AllValid(a + b) && !HasTraversal(a + b)
  {
    hide Normal, ValidEscapes;
  }

  lemma EmptyKept(empties: seq<Path>)
    requires empties == [[]] || empties == []
    ensures AllValid(empties) && Keep(empties) == [] && !HasTraversal(empties)
  {
  }

  /** A rendered path passes every raw check but, perhaps, the one for double encoding. */
  lemma RenderClean(segs: seq<Path>, trailing: bool, avoid: set<byte>)
    requires AllCanonical(segs, avoid)
    ensures var out := Render(segs, trailing); |out| > 0 && out[0] == '/' && NoSpecial(out) && Avoids(out, avoid)
  {
    forall i | 0 <= i < |segs| ensures Avoids(segs[i], avoid) && NoSpecial(segs[i]) {
      assert Canonical(segs[i], avoid);
    }
    JoinAvoids(segs, avoid);
    JoinNoSpecial(segs);
    assert Avoids("/", avoid) && Avoids("", avoid);
    AvoidsAppend(Join(segs), "/", avoid);
    AvoidsAppend(Join(segs), "", avoid);
  }

  lemma AcceptedSegments(raw: Path, avoid: set<byte>)
    requires raw != "" && Sanitize(raw).Ok? && Avoids(raw, avoid)
    ensures AllValid(Split(raw)) && AllCanonical(Keep(Split(raw)), avoid)
    ensures Sanitize(raw) == Ok(Render(Keep(Split(raw)), TrailingSlash(raw)))
    ensures NoSpecial(raw) && Avoids(raw, FORBIDDEN) && ValidEscapes(raw) && CleanSegments(Split(raw), avoid)
  {
    RawChecksPass(raw);
    AvoidsFewer(raw, FORBIDDEN, {});
    SplitValid(raw, {});
    SplitValid(raw, avoid);
    KeptAreCanonical(Split(raw), avoid);
  }

  lemma RenderedSecondPass(segs: seq<Path>, trailing: bool)
    requires AllCanonical(segs, FORBIDDEN)
    ensures var out := Render(segs, trailing);
            Sanitize(out) == if HasDoubleEncoding(out) then Err(DoubleEncoding) else Ok(out)
  {
    hide HasDoubleEncoding, ContainsIgnoringCase, Normal;
    var out := Render(segs, trailing);
    RenderClean(segs, trailing, FORBIDDEN);
    AvoidsFewer(out, FORBIDDEN, {});
    RawChecksPass(out);
    if HasDoubleEncoding(out) {
      OnlyDoubleEncodingLeft(out);
    } else {
      forall i | 0 <= i < |segs| ensures '/' !in segs[i] { assert Canonical(segs[i], FORBIDDEN); }
      SplitRender(segs, trailing);
      FramedKept(segs, trailing, FORBIDDEN);
      TrailingRender(segs, trailing, FORBIDDEN);
    }
  }

  lemma OnlyDoubleEncodingLeft(s: Path)
    requires NoSpecial(s) && Avoids(s, FORBIDDEN) && HasDoubleEncoding(s)
    ensures RawError(s) == Some(DoubleEncoding)
  {
    hide ContainsIgnoringCase, HasDoubleEncoding;
    AvoidsFewer(s, FORBIDDEN, {});
    AvoidsFewer(s, FORBIDDEN, {0});
    AvoidsFewer(s, FORBIDDEN, {SLASH});
    AvoidsFewer(s, FORBIDDEN, {BACKSLASH});
    FindsEscape(s, '0', '0');
    FindsEscape(s, '2', 'f');
    FindsEscape(s, '5', 'c');
  }

  // ------------------------------------------------------------------------- meaning

  ghost function DecodeAll(segs: seq<Path>): seq<seq<byte>>
    requires AllValid(segs)
  {
    if |segs| == 0 then [] else DecodeAll(segs[..|segs| - 1]) + [Decode(segs[|segs| - 1])]
  }

  /** Decoded segments with the empty ones and `.` removed. */
  function Meaningful(decoded: seq<seq<byte>>): seq<seq<byte>> {
    if |decoded| == 0 then []
    else
      var last := decoded[|decoded| - 1];
      Meaningful(decoded[..|decoded| - 1]) + if last == [] || last == [DOT] then [] else [last]
  }

  /** A segment that stands for unreserved characters only is normalised to them. */
  lemma {:induction false} UnreservedDecoded(s: Path)
    requires ValidEscapes(s) && forall b :: b in Decode(s) ==> IsUnreserved(b)
    ensures |Normal(s)| == |Decode(s)|
    ensures forall i :: 0 <= i < |Decode(s)| ==> Normal(s)[i] as int == Decode(s)[i]
  {
    if |s| == 0 {
    } else {
      NormalAt(s, 0);
      assert s[0..] == s;
      var n := if s[0] == '%' then 3 else 1;
      assert Decode(s) == [Decode(s)[0]] + Decode(s[n..]);
      assert forall b :: b in Decode(s[n..]) ==> b in Decode(s);
      UnreservedDecoded(s[n..]);
      assert Decode(s)[0] in Decode(s);
    }
  }

  /** Whether a segment is empty, `.` or `..` is decided by what it stands for. */
  lemma DotsByMeaning(s: Path)
    requires ValidEscapes(s)
    ensures IsTrivial(Normal(s)) <==> Decode(s) == [] || Decode(s) == [DOT]
    ensures Normal(s) == ".." <==> Decode(s) == [DOT, DOT]
  {
    NormalFacts(s, {});
    assert "."[1..] == "" && ".."[1..] == ".";
    assert Decode(".") == [DOT] && Decode("..") == [DOT] + Decode(".");
    if Decode(s) == [] || Decode(s) == [DOT] || Decode(s) == [DOT, DOT] {
      UnreservedDecoded(s);
      var m := Normal(s);
      assert |m| == 1 ==> m == [m[0]];
      assert |m| == 2 ==> m == [m[0], m[1]];
    }
  }

  lemma {:induction false} KeepDecodes(segs: seq<Path>)
    requires AllValid(segs)
    ensures AllValid(Keep(segs)) && DecodeAll(Keep(segs)) == Meaningful(DecodeAll(segs))
  {
    var n := |segs|;
    if n == 0 {
    } else {
      var init, last := segs[..n - 1], segs[n - 1];
      KeepDecodes(init);
      DotsByMeaning(last);
      NormalFacts(last, {});
      hide Normal, Decode, ValidEscapes, Avoids;
      DecodeAllLast(init, last);
      assert segs == init + [last];
      if IsTrivial(Normal(last)) {
        assert Keep(segs) == Keep(init);
      } else {
        DecodeAllLast(Keep(init), Normal(last));
      }
      hide Keep, DecodeAll;
      MeaningfulLast(DecodeAll(init), Decode(last));
    }
  }

  lemma DecodeAllLast(segs: seq<Path>, last: Path)
    requires AllValid(segs) && ValidEscapes(last)
    ensures AllValid(segs + [last]) && DecodeAll(segs + [last]) == DecodeAll(segs) + [Decode(last)]
  {
    hide Decode, ValidEscapes;
    assert (segs + [last])[..|segs|] == segs;
  }

  lemma MeaningfulLast(decoded: seq<seq<byte>>, last: seq<byte>)
    ensures Meaningful(decoded + [last]) == Meaningful(decoded) + if last == [] || last == [DOT] then [] else [last]
  {
    assert (decoded + [last])[..|decoded|] == decoded;
  }

  lemma {:induction false} DecodeAllLength(segs: seq<Path>)
    requires AllValid(segs)
    ensures |DecodeAll(segs)| == |segs|
    ensures forall i :: 0 <= i < |segs| ==> DecodeAll(segs)[i] == Decode(segs[i])
  {
    if |segs| == 0 {
    } else {
      DecodeAllLength(segs[..|segs| - 1]);
    }
  }

  lemma AvoidsUnfolds(s: Path, avoid: set<byte>)
    requires |s| > 0 && ValidEscapes(s)
    ensures var n := if s[0] == '%' then 3 else 1;
            n <= |s| && (Avoids(s, avoid) <==> EscapeOk(s, 0, avoid) && Avoids(s[n..], avoid))
  {
    assert EscapeOk(s, 0, {});
    var n := if s[0] == '%' then 3 else 1;
    if EscapeOk(s, 0, avoid) && Avoids(s[n..], avoid) {
      forall i | 0 <= i < |s| ensures EscapeOk(s, i, avoid) {
        if i >= n { assert EscapeOk(s[n..], i - n, avoid); }
      }
    } else if Avoids(s, avoid) {
      AvoidsSuffix(s, n, avoid);
    }
  }

  lemma NotADigit(h: Octet, b: byte)
    requires IsHex(h) && b in FORBIDDEN
    ensures h as int != b && b != PERCENT
  {
  }

  /** A forbidden byte is in a decoded segment exactly when it is there as a character or as an
      escape. */
  lemma {:induction false} DecodedBytes(s: Path, b: byte)
    requires ValidEscapes(s) && b in FORBIDDEN
    ensures b in Decode(s) <==> (b as char) in s || !Avoids(s, {b})
  {
    if |s| == 0 {
    } else {
      DecodeAt(s, 0);
      assert s[0..] == s;
      var n := if s[0] == '%' then 3 else 1;
      AvoidsUnfolds(s, {b});
      DecodedBytes(s[n..], b);
      var head := if s[0] == '%' then [s[0], s[1], s[2]] else [s[0]];
      assert s == head + s[n..];
      if s[0] == '%' { NotADigit(s[1], b); NotADigit(s[2], b); }
      hide Decode, Avoids, ValidEscapes, HexDigitToVal, Value;
    }
  }

  /** A path is accepted exactly when it is empty, or starts with a slash, has only valid escapes,
      shows no double-encoding pattern, and no segment stands for `..` or contains a slash,
      backslash or NUL, however spelled. */
  lemma AcceptedIff(raw: Path)
    ensures Sanitize(raw).Ok? <==>
            || raw == ""
            || (&& raw[0] == '/' && ValidEscapes(raw) && !HasDoubleEncoding(raw)
                && AllValid(Split(raw))
                && forall i :: 0 <= i < |Split(raw)| ==> Proper(Decode(Split(raw)[i])))
  {
    if raw != "" && ValidEscapes(raw) {
      var segs := Split(raw);
      SplitValid(raw, {});
      ForbiddenBySegment(raw);
      RawChecksPass(raw);
      forall i | 0 <= i < |segs| ensures Normal(segs[i]) == ".." <==> Decode(segs[i]) == [DOT, DOT] {
        DotsByMeaning(segs[i]);
      }
      hide Normal, Decode, Split, HasDoubleEncoding, Avoids;
      if NoSpecial(raw) && Avoids(raw, FORBIDDEN) && !HasTraversal(segs) {
        forall i | 0 <= i < |segs| ensures Proper(Decode(segs[i])) {
          assert NoForbidden(Decode(segs[i])) && Normal(segs[i]) != "..";
        }
      }
    } else if raw != "" {
      RawChecksPass(raw);
      if Avoids(raw, FORBIDDEN) { AvoidsFewer(raw, FORBIDDEN, {}); }
    }
  }

  ghost predicate NoForbidden(decoded: seq<byte>) {
    forall b :: b in decoded ==> b !in FORBIDDEN
  }

  ghost predicate Proper(decoded: seq<byte>) {
    decoded != [DOT, DOT] && NoForbidden(decoded)
  }

  /** The raw text is free of the forbidden bytes exactly when every decoded segment is. */
  lemma ForbiddenBySegment(raw: Path)
    requires ValidEscapes(raw) && AllValid(Split(raw))
    ensures NoSpecial(raw) && Avoids(raw, FORBIDDEN) <==>
            forall i :: 0 <= i < |Split(raw)| ==> NoForbidden(Decode(Split(raw)[i]))
  {
    hide Split, Decode, NoForbidden, Avoids;
    var segs := Split(raw);
    forall i | 0 <= i < |segs|
      ensures NoForbidden(Decode(segs[i])) <==> NoSpecial(segs[i]) && '/' !in segs[i] && Avoids(segs[i], FORBIDDEN)
    {
      SegmentForbidden(segs[i]);
    }
    if NoSpecial(raw) && Avoids(raw, FORBIDDEN) {
      SplitValid(raw, FORBIDDEN);
      forall i | 0 <= i < |segs| ensures NoForbidden(Decode(segs[i])) {
        SegmentInherits(raw, i);
      }
    } else if forall i :: 0 <= i < |segs| ==> NoForbidden(Decode(segs[i])) {
      CleanIfSegmentsClean(raw);
    }
  }

  lemma SegmentInherits(raw: Path, i: nat)
    requires ValidEscapes(raw) && i < |Split(raw)| && NoSpecial(raw)
    ensures NoSpecial(Split(raw)[i]) && '/' !in Split(raw)[i]
  {
    SplitValid(raw, {});
    assert PartOf(Split(raw)[i], raw);
  }

  lemma CleanIfSegmentsClean(raw: Path)
    requires forall i :: 0 <= i < |Split(raw)| ==> NoSpecial(Split(raw)[i]) && Avoids(Split(raw)[i], FORBIDDEN)
    ensures NoSpecial(raw) && Avoids(raw, FORBIDDEN)
  {
    hide Split;
    JoinSplit(raw);
    JoinNoSpecial(Split(raw));
    JoinAvoids(Split(raw), FORBIDDEN);
    AvoidsSuffix(['/'] + raw, 1, FORBIDDEN);
    assert (['/'] + raw)[1..] == raw;
    assert forall c :: c in raw ==> c in ['/'] + raw;
  }

  lemma SegmentForbidden(s: Path)
    requires ValidEscapes(s)
    ensures NoForbidden(Decode(s)) <==> NoSpecial(s) && '/' !in s && Avoids(s, FORBIDDEN)
  {
    DecodedBytes(s, 0);
    DecodedBytes(s, SLASH);
    DecodedBytes(s, BACKSLASH);
    AvoidsUnion(s, {0}, {SLASH});
    AvoidsUnion(s, {0} + {SLASH}, {BACKSLASH});
    assert {0} + {SLASH} + {BACKSLASH} == FORBIDDEN;
    assert 0 as char == '\0' && SLASH as char == '/' && BACKSLASH as char == '\\';
    hide Decode, Avoids;
    if NoSpecial(s) && '/' !in s && Avoids(s, FORBIDDEN) {
      forall b | b in Decode(s) ensures b !in FORBIDDEN {
      }
    }
  }

  /** The nonempty segments of a path. */
  function NonEmpty(segs: seq<Path>): seq<Path> {
    if |segs| == 0 then []
    else NonEmpty(segs[..|segs| - 1]) + if segs[|segs| - 1] == [] then [] else [segs[|segs| - 1]]
  }

  /** Sanitising preserves meaning: the decoded segments of the output are those of the input
      with the empty ones and `.` removed, and none of them is `..` or contains a forbidden byte. */
  lemma MeaningPreserved(raw: Path)
    requires raw != "" && Sanitize(raw).Ok?
    ensures AllValid(Split(raw)) && AllValid(NonEmpty(Split(Sanitize(raw).value)))
    ensures var decoded := DecodeAll(NonEmpty(Split(Sanitize(raw).value)));
            && decoded == Meaningful(DecodeAll(Split(raw)))
            && forall i :: 0 <= i < |decoded| ==> Proper(decoded[i])
  {
    RawChecksPass(raw);
    AcceptedSegments(raw, FORBIDDEN);
    var segs := Keep(Split(raw));
    forall i | 0 <= i < |segs| ensures '/' !in segs[i] && segs[i] != [] && NoSpecial(segs[i]) && Avoids(segs[i], FORBIDDEN) {
      assert Canonical(segs[i], FORBIDDEN);
    }
    SplitRender(segs, TrailingSlash(raw));
    NonEmptyFramed(segs, TrailingSlash(raw));
    KeepDecodes(Split(raw));
    DecodeAllLength(segs);
    forall i | 0 <= i < |segs| ensures Proper(Decode(segs[i])) {
      assert Canonical(segs[i], FORBIDDEN);
      DotsByMeaning(segs[i]);
      SegmentForbidden(segs[i]);
    }
  }

  lemma {:induction false} NonEmptyConcat(a: seq<Path>, b: seq<Path>)
    ensures NonEmpty(a + b) == NonEmpty(a) + NonEmpty(b)
  {
    if |b| == 0 {
      assert a + b == a;
    } else {
      NonEmptyConcat(a, b[..|b| - 1]);
      assert (a + b)[..|a + b| - 1] == a + b[..|b| - 1];
    }
  }

  lemma {:induction false} AllNonEmpty(segs: seq<Path>)
    requires forall i :: 0 <= i < |segs| ==> segs[i] != []
    ensures NonEmpty(segs) == segs
  {
    if |segs| == 0 {
    } else {
      AllNonEmpty(segs[..|segs| - 1]);
    }
  }

  lemma EmptyOnly(segs: seq<Path>)
    requires segs == [[]] || segs == []
    ensures NonEmpty(segs) == []
  {
  }

  lemma NonEmptyFramed(segs: seq<Path>, trailing: bool)
    requires forall i :: 0 <= i < |segs| ==> segs[i] != []
    ensures NonEmpty(Framed(segs, trailing)) == segs
  {
    var tail: seq<Path> := if trailing || |segs| == 0 then [[]] else [];
    EmptyOnly([[]]);
    EmptyOnly(tail);
    AllNonEmpty(segs);
    hide NonEmpty;
    NonEmptyConcat([[]], segs);
    NonEmptyConcat([[]] + segs, tail);
  }

  // ------------------------------------------------------------- RFC 3986 equivalence

  /** One normalisation step of sections 6.2.2.1 and 6.2.2.2 of RFC 3986: an escape is put in
      upper case, or an escape of an unreserved character is replaced by the character. */
  ghost predicate RewritesAt(s: Path, t: Path, k: nat) {
    && k + 2 < |s| && s[k] == '%' && IsHex(s[k + 1]) && IsHex(s[k + 2])
    && (|| t == s[..k] + ['%', UpperChar(s[k + 1]), UpperChar(s[k + 2])] + s[k + 3..]
        || (IsUnreserved(Value(s[k + 1], s[k + 2])) && t == s[..k] + [Value(s[k + 1], s[k + 2]) as char] + s[k + 3..]))
  }

  ghost predicate Rewrites(s: Path, t: Path) {
    exists k: nat :: RewritesAt(s, t, k)
  }

  /** A sequence of well-escaped segments, neighbours one step apart in either direction. */
  ghost predicate Chain(c: seq<Path>) {
    && |c| > 0
    && AllValid(c)
    && forall i :: 0 <= i < |c| - 1 ==> Linked(c[i], c[i + 1])
  }

  ghost predicate Linked(s: Path, t: Path) {
    Rewrites(s, t) || Rewrites(t, s)
  }

  ghost predicate ConnectedBy(c: seq<Path>, s: Path, t: Path) {
    Chain(c) && c[0] == s && c[|c| - 1] == t
  }

  /** Two segments are equivalent when steps lead from one to the other. */
  ghost predicate Equivalent(s: Path, t: Path) {
    exists c: seq<Path> :: ConnectedBy(c, s, t)
  }

  lemma RewriteKeepsNormal(s: Path, t: Path)
    requires ValidEscapes(s) && ValidEscapes(t) && Rewrites(s, t)
    ensures Normal(s) == Normal(t)
  {
    var k: nat :| RewritesAt(s, t, k);
    var p, m, m', q := RewriteParts(s, t, k);
    hide Normal, Avoids, ValidEscapes, RewritesAt, Rewrites;
    SameMiddle(p, m, m', q);
  }

  /** What a step leaves alone, and the two spellings it swaps. */
  lemma RewriteParts(s: Path, t: Path, k: nat) returns (p: Path, m: Path, m': Path, q: Path)
    requires ValidEscapes(s) && RewritesAt(s, t, k)
    ensures s == p + m + q && t == p + m' + q
    ensures ValidEscapes(p) && ValidEscapes(m) && ValidEscapes(m') && ValidEscapes(q) && Normal(m) == Normal(m')
  {
    AvoidsPrefix(s, k, {});
    AvoidsSuffix(s, k + 3, {});
    SpellingsAgree(s[k + 1], s[k + 2]);
    hide Normal, Avoids, ValidEscapes, NormalEscape, IsUnreserved, Value;
    var upper: Path := ['%', UpperChar(s[k + 1]), UpperChar(s[k + 2])];
    p, m, q := s[..k], ['%', s[k + 1], s[k + 2]], s[k + 3..];
    m' := if t == p + upper + q then upper else [Value(s[k + 1], s[k + 2]) as char];
    assert s[k..k + 3] == m;
  }

  lemma SpellingsAgree(h1: Octet, h2: Octet)
    requires IsHex(h1) && IsHex(h2)
    ensures var esc, upper: Path := ['%', h1, h2], ['%', UpperChar(h1), UpperChar(h2)];
            && ValidEscapes(esc) && ValidEscapes(upper)
            && Normal(esc) == NormalEscape(h1, h2) == Normal(upper)
    ensures IsUnreserved(Value(h1, h2)) ==>
              var c: Path := [Value(h1, h2) as char]; ValidEscapes(c) && Normal(c) == NormalEscape(h1, h2)
  {
    UpperSame(h1);
    UpperSame(h2);
    NormalEscapeOk(h1, h2, {});
    assert NormalEscape(UpperChar(h1), UpperChar(h2)) == NormalEscape(h1, h2);
    hide UpperChar, HexDigitToVal, Value, NormalEscape;
    OneEscape(h1, h2);
    OneEscape(UpperChar(h1), UpperChar(h2));
  }

  lemma UpperSame(h: Octet)
    requires IsHex(h)
    ensures IsHex(UpperChar(h)) && HexDigitToVal(UpperChar(h)) == HexDigitToVal(h) && UpperChar(UpperChar(h)) == UpperChar(h)
  {
  }

  lemma OneEscape(h1: Octet, h2: Octet)
    requires IsHex(h1) && IsHex(h2)
    ensures var esc: Path := ['%', h1, h2]; ValidEscapes(esc) && Normal(esc) == NormalEscape(h1, h2)
  {
    var esc: Path := ['%', h1, h2];
    assert esc[3..] == [];
    assert ValidEscapes(esc);
  }

  lemma SameMiddle(p: Path, m: Path, m': Path, q: Path)
    requires ValidEscapes(p) && ValidEscapes(m) && ValidEscapes(m') && ValidEscapes(q) && Normal(m) == Normal(m')
    ensures ValidEscapes(p + m + q) && ValidEscapes(p + m' + q) && Normal(p + m + q) == Normal(p + m' + q)
  {
    hide Normal, Decode, Avoids, ValidEscapes;
    NormalAppend(p, m);
    NormalAppend(p, m');
    NormalAppend(p + m, q);
    NormalAppend(p + m', q);
  }

  lemma {:induction false} ChainKeepsNormal(c: seq<Path>, n: nat)
    requires Chain(c) && n < |c|
    ensures Normal(c[0]) == Normal(c[n])
  {
    if n == 0 {
    } else {
      ChainKeepsNormal(c, n - 1);
      assert Linked(c[n - 1], c[n - 1 + 1]);
      if Rewrites(c[n - 1], c[n]) { RewriteKeepsNormal(c[n - 1], c[n]); } else { RewriteKeepsNormal(c[n], c[n - 1]); }
    }
  }

  lemma EquivalentTransitive(a: Path, b: Path, c: Path)
    requires Equivalent(a, b) && Equivalent(b, c)
    ensures Equivalent(a, c)
  {
    hide Linked;
    var x: seq<Path> :| ConnectedBy(x, a, b);
    var y: seq<Path> :| ConnectedBy(y, b, c);
    var z := x + y[1..];
    forall i | 0 <= i < |z| - 1 ensures Linked(z[i], z[i + 1]) {
      if i >= |x| - 1 {
        assert z[i] == y[i - |x| + 1] && z[i + 1] == y[i - |x| + 1 + 1];
      } else {
        assert z[i] == x[i] && z[i + 1] == x[i + 1];
      }
    }
    assert ConnectedBy(z, a, c);
  }

  lemma EquivalentSymmetric(a: Path, b: Path)
    requires Equivalent(a, b)
    ensures Equivalent(b, a)
  {
    var x: seq<Path> :| ConnectedBy(x, a, b);
    var n := |x|;
    var y := seq(n, i requires 0 <= i < n => x[n - 1 - i]);
    forall i | 0 <= i < n - 1 ensures Linked(y[i], y[i + 1]) {
      assert Linked(x[n - 2 - i], x[n - 2 - i + 1]);
    }
    assert ConnectedBy(y, b, a);
  }

  lemma SelfEquivalent(s: Path)
    requires ValidEscapes(s)
    ensures Equivalent(s, s)
  {
    assert ConnectedBy([s], s, s);
  }

  lemma OneStep(s: Path, t: Path)
    requires ValidEscapes(s) && ValidEscapes(t) && Rewrites(s, t)
    ensures Equivalent(s, t)
  {
    assert ConnectedBy([s, t], s, t);
  }

  lemma StepAtFront(p: Path, s: Path)
    requires ValidEscapes(p) && ValidEscapes(s) && |s| > 2 && s[0] == '%' && IsHex(s[1]) && IsHex(s[2])
    ensures Equivalent(p + s, p + NormalEscape(s[1], s[2]) + s[3..])
  {
    var head, k := NormalEscape(s[1], s[2]), |p|;
    NormalEscapeOk(s[1], s[2], {});
    AvoidsSuffix(s, 3, {});
    AvoidsAppend(p, s, {});
    AvoidsAppend(p, head, {});
    AvoidsAppend(p + head, s[3..], {});
    var from, to := p + s, p + head + s[3..];
    hide Avoids, Equivalent;
    assert from[..k] == p && from[k + 3..] == s[3..];
    assert from[k] == s[0] && from[k + 1] == s[1] && from[k + 2] == s[2];
    assert RewritesAt(from, to, k);
    OneStep(from, to);
  }

  /** Steps lead from every segment to its normal form, behind any prefix. */
  lemma {:induction false} ReachesNormal(p: Path, s: Path)
    requires ValidEscapes(p) && ValidEscapes(s)
    ensures Equivalent(p + s, p + Normal(s))
    decreases |s|
  {
    hide Normal, Equivalent, Avoids, ValidEscapes, NormalEscape, Decode, IsHex;
    if |s| == 0 {
      NormalOfEmpty(s);
      NormalAppend(p, s);
      SelfEquivalent(p + s);
    } else {
      NormalAt(s, 0);
      assert s[0..] == s;
      HeadFacts(s, {});
      var n := if s[0] == '%' then 3 else 1;
      var head: Path := if s[0] == '%' then NormalEscape(s[1], s[2]) else [s[0]];
      NormalAppend(p, head);
      ReachesNormal(p + head, s[n..]);
      assert p + Normal(s) == p + head + Normal(s[n..]);
      if s[0] == '%' {
        StepAtFront(p, s);
        EquivalentTransitive(p + s, p + head + s[n..], p + Normal(s));
      } else {
        assert p + s == p + head + s[1..];
      }
    }
  }

  /** Two well-escaped segments normalise equally exactly when they are equivalent. */
  lemma NormalEqualIffEquivalent(s: Path, t: Path)
    requires ValidEscapes(s) && ValidEscapes(t)
    ensures Normal(s) == Normal(t) <==> Equivalent(s, t)
  {
    if Normal(s) == Normal(t) {
      ReachesNormal([], s);
      ReachesNormal([], t);
      assert [] + s == s && [] + t == t && [] + Normal(s) == Normal(s);
      EquivalentSymmetric(t, Normal(t));
      EquivalentTransitive(s, Normal(s), t);
    }
    if Equivalent(s, t) {
      var c: seq<Path> :| ConnectedBy(c, s, t);
      ChainKeepsNormal(c, |c| - 1);
    }
  }

  ghost predicate PairwiseEquivalent(a: seq<Path>, b: seq<Path>) {
    |a| == |b| && forall i :: 0 <= i < |a| ==> Equivalent(a[i], b[i])
  }

  lemma {:induction false} EquivalentKeep(a: seq<Path>, b: seq<Path>)
    requires AllValid(a) && AllValid(b) && PairwiseEquivalent(a, b)
    ensures Keep(a) == Keep(b)
  {
    var n := |a|;
    if n == 0 {
    } else {
      EquivalentKeep(a[..n - 1], b[..n - 1]);
      NormalEqualIffEquivalent(a[n - 1], b[n - 1]);
    }
  }

  /** What the canonicaliser asks of the meaning of a well-escaped path. */
  ghost predicate Acceptable(raw: Path)
    requires AllValid(Split(raw))
  {
    raw == "" || (raw[0] == '/' && forall i :: 0 <= i < |Split(raw)| ==> Proper(Decode(Split(raw)[i])))
  }

  lemma AcceptedByMeaning(raw: Path)
    requires ValidEscapes(raw)
    ensures AllValid(Split(raw))
    ensures Sanitize(raw).Ok? <==> Acceptable(raw) && !HasDoubleEncoding(raw)
  {
    SplitValid(raw, {});
    AcceptedIff(raw);
    if raw == "" { NoDoubleInEmpty(raw); }
    hide Sanitize, Split, Proper, HasDoubleEncoding;
  }

  lemma NoDoubleInEmpty(s: Path)
    requires s == ""
    ensures !HasDoubleEncoding(s)
  {
  }

  lemma EquivalentDecode(s: Path, t: Path)
    requires ValidEscapes(s) && ValidEscapes(t) && Equivalent(s, t)
    ensures Decode(s) == Decode(t) && (s == [] <==> t == [])
  {
    NormalEqualIffEquivalent(s, t);
    NormalFacts(s, {});
    NormalFacts(t, {});
    DecodeNonEmpty(s);
    DecodeNonEmpty(t);
  }

  lemma DecodeNonEmpty(s: Path)
    requires ValidEscapes(s)
    ensures Decode(s) == [] <==> s == []
  {
    if s != [] { assert EscapeOk(s, 0, {}); }
  }

  /** Where a path begins shows in its segments. */
  lemma StartBySegments(raw: Path)
    ensures raw == "" <==> Split(raw) == [[]]
    ensures raw != "" && raw[0] == '/' <==> |Split(raw)| > 1 && Split(raw)[0] == []
  {
    if '/' in raw {
      var k := FirstSlash(raw);
      assert |raw[..k]| == k;
      assert |Split(raw)| > 1 && Split(raw)[0] == raw[..k];
      assert raw[0] == '/' ==> '/' in raw[..1];
    }
  }

  lemma EquivalentAcceptable(a: Path, b: Path)
    requires AllValid(Split(a)) && AllValid(Split(b)) && PairwiseEquivalent(Split(a), Split(b))
    ensures Acceptable(a) == Acceptable(b) && (a == "" <==> b == "")
  {
    var x, y := Split(a), Split(b);
    StartBySegments(a);
    StartBySegments(b);
    hide Split, Proper, Equivalent, Decode, ValidEscapes;
    forall i | 0 <= i < |x| ensures Decode(x[i]) == Decode(y[i]) && (x[i] == [] <==> y[i] == []) {
      assert ValidEscapes(x[i]) && ValidEscapes(y[i]) && Equivalent(x[i], y[i]);
      EquivalentDecode(x[i], y[i]);
    }
    if a == "" {
      assert y[0] == [] && y == [y[0]];
    }
    if b == "" {
      assert x[0] == [] && x == [x[0]];
    }
  }

  /** Well-escaped paths with pairwise equivalent segments. They are accepted or refused together
      exactly when they agree on showing a double-encoding pattern, or neither is acceptable
      anyway. When both are accepted they are sent to the same path exactly when they agree on a
      trailing slash or keep no segment: the trailing slash is read off the raw text, where `/.`
      counts and its spelling `/%2e` does not. */
  lemma EquivalentPathsAgreeIff(a: Path, b: Path)
    requires ValidEscapes(a) && ValidEscapes(b) && PairwiseEquivalent(Split(a), Split(b))
    ensures AllValid(Split(a)) && AllValid(Split(b)) && Acceptable(a) == Acceptable(b)
    ensures Sanitize(a).Ok? == Sanitize(b).Ok? <==> HasDoubleEncoding(a) == HasDoubleEncoding(b) || !Acceptable(a)
    ensures Sanitize(a).Ok? && Sanitize(b).Ok? ==>
              (Sanitize(a) == Sanitize(b) <==> Keep(Split(a)) == [] || TrailingSlash(a) == TrailingSlash(b))
  {
    AcceptedByMeaning(a);
    AcceptedByMeaning(b);
    EquivalentAcceptable(a, b);
    if Sanitize(a).Ok? && Sanitize(b).Ok? {
      EquivalentOutputs(a, b);
    }
    hide Sanitize, Split, HasDoubleEncoding, Keep, TrailingSlash, Acceptable;
  }

  lemma EquivalentOutputs(a: Path, b: Path)
    requires AllValid(Split(a)) && AllValid(Split(b)) && PairwiseEquivalent(Split(a), Split(b)) && (a == "" <==> b == "")
    requires Sanitize(a).Ok? && Sanitize(b).Ok?
    ensures Sanitize(a) == Sanitize(b) <==> Keep(Split(a)) == [] || TrailingSlash(a) == TrailingSlash(b)
  {
    if a != "" {
      RawChecksPass(a);
      RawChecksPass(b);
      AcceptedSegments(a, FORBIDDEN);
      AcceptedSegments(b, FORBIDDEN);
      EquivalentKeep(Split(a), Split(b));
    }
  }

  /** Two equivalent paths, both accepted, that come out different. */
  lemma TrailingDotSpellingMatters()
    ensures Sanitize("/a/.") == Ok("/a/") && Sanitize("/a/%2e") == Ok("/a")
    ensures PairwiseEquivalent(Split("/a/."), Split("/a/%2e"))
  {
    hide *;
    var plain: Path, coded: Path := "/a/.", "/a/%2e";
    PlainDot(plain);
    CodedDot(coded);
    DotsEquivalent(plain, coded);
  }

  lemma PlainDot(path: Path)
    requires path == "/a/."
    ensures Sanitize(path) == Ok("/a/") && Split(path) == [[], "a", "."]
  {
    DotSpelling("%2e");
    ThreeSegments(path, ".");
    TrailingDot(path);
    hide Sanitize, Split, Avoids, HasDoubleEncoding, TrailingSlash, Normal;
    NoPercent(path);
    SanitizedTo(path, ".", true);
  }

  lemma CodedDot(path: Path)
    requires path == "/a/%2e"
    ensures Sanitize(path) == Ok("/a") && Split(path) == [[], "a", "%2e"]
  {
    DotSpelling("%2e");
    ThreeSegments(path, "%2e");
    NoTrailingE(path);
    hide Sanitize, Split, Avoids, HasDoubleEncoding, TrailingSlash, Normal;
    NoDoubleInDot(path);
    SanitizedTo(path, "%2e", false);
  }

  lemma TrailingDot(path: Path)
    requires path == "/a/."
    ensures TrailingSlash(path) && NoSpecial(path) && '%' !in path
  {
    assert path[2..] == "/.";
  }

  lemma NoTrailingE(path: Path)
    requires path == "/a/%2e"
    ensures !TrailingSlash(path) && NoSpecial(path)
  {
    assert path[5..] == "e" && path[4..] == "2e";
  }

  lemma DotsEquivalent(plain: Path, coded: Path)
    requires Split(plain) == [[], "a", "."] && Split(coded) == [[], "a", "%2e"]
    ensures PairwiseEquivalent(Split(plain), Split(coded))
  {
    DotSpelling("%2e");
    SelfEquivalent([]);
    SelfEquivalent("a");
    hide Split, Equivalent;
  }

  lemma DotSpelling(esc: Path)
    requires esc == "%2e"
    ensures ValidEscapes(esc) && ValidEscapes(".") && ValidEscapes("a") && ValidEscapes([])
    ensures Normal(esc) == "." && Normal(".") == "." && Normal("a") == "a" && Normal([]) == []
    ensures Equivalent(esc, ".") && Equivalent(".", esc)
  {
    assert esc[3..] == [] && "."[1..] == [] && "a"[1..] == [];
    NormalEqualIffEquivalent(esc, ".");
    NormalEqualIffEquivalent(".", esc);
  }

  lemma ThreeSegments(path: Path, last: Path)
    requires path == "/a/" + last && '/' !in last
    ensures Split(path) == [[], "a", last]
  {
    hide Split;
    var tail: Path := "a/" + last;
    assert path[..0] == [] && path[1..] == tail && tail[..1] == "a" && tail[2..] == last && last[..|last|] == last;
    SplitAt(path, 0);
    SplitAt(tail, 1);
    SplitAt(last, |last|);
  }

  lemma NoPercent(s: Path)
    requires '%' !in s
    ensures ValidEscapes(s) && Avoids(s, FORBIDDEN) && !HasDoubleEncoding(s)
  {
    AvoidsAnything(s, {});
    AvoidsAnything(s, FORBIDDEN);
    AvoidsAnything(s, {PERCENT});
    if HasDoubleEncoding(s) { DoubleNeedsPercent(s); }
  }

  lemma AvoidsAnything(s: Path, avoid: set<byte>)
    requires '%' !in s
    ensures Avoids(s, avoid)
  {
  }

  lemma NoDoubleInDot(s: Path)
    requires s == "/a/%2e"
    ensures Avoids(s, FORBIDDEN) && !HasDoubleEncoding(s)
  {
    assert Avoids(s, FORBIDDEN) && Avoids(s, {PERCENT}) && ValidEscapes(s);
    if HasDoubleEncoding(s) { DoubleNeedsPercent(s); }
  }

  lemma SanitizedTo(path: Path, last: Path, trailing: bool)
    requires Split(path) == [[], "a", last] && |path| > 0 && path[0] == '/' && NoSpecial(path)
    requires Avoids(path, FORBIDDEN) && !HasDoubleEncoding(path) && TrailingSlash(path) == trailing
    requires ValidEscapes(last) && Normal(last) == "." && ValidEscapes("a") && Normal("a") == "a" && Normal([]) == []
    ensures Sanitize(path) == Ok(if trailing then "/a/" else "/a")
  {
    RawChecksPass(path);
    var segs: seq<Path> := [[], "a", last];
    assert segs[..2] == [[], "a"] && segs[..2][..1] == [[]] && segs[..2][..1][..0] == [];
    assert AllValid(segs) && !HasTraversal(segs);
    assert Keep(segs[..2][..1]) == [] && Keep(segs[..2]) == ["a"];
    assert Keep(segs) == ["a"];
    assert ["a"][1..] == [] && Join(["a"]) == "/a" && Render(["a"], trailing) == if trailing then "/a/" else "/a";
    hide Split, RawError;
  }
}
