/** Sanitising twice, as the inspection layer does behind the sanitizer layer
    (server/src/middleware/inspection.rs): when a double-encoding pattern surfaces, and what the
    output becomes when it is written as UTF-8 and read back as bytes. */
module PathSecondPass {
  import opened Prelude
  import opened PathSanitizer
  import opened PathSanitizerLaws

  // ------------------------------------------------------------ patterns and slashes

  /** A pattern runs over its own characters only. */
  lemma OccursChars(s: Path, pattern: Path, i: nat)
    requires OccursAt(s, pattern, i)
    ensures forall k :: i <= k < i + |pattern| ==> s[k] in pattern
  {
    forall k | i <= k < i + |pattern| ensures s[k] in pattern {
      assert s[i..i + |pattern|][k - i] == s[k];
    }
  }

  /** Where a pattern lies within the middle part. */
  lemma OccursInside(m: Path, after: Path, pattern: Path, before: Path, i: nat)
    requires i + |pattern| <= |m|
    ensures OccursAt(before + m + after, pattern, |before| + i) <==> OccursAt(m, pattern, i)
  {
    var k := |before| + i;
    assert (before + m + after)[k..k + |pattern|] == m[i..i + |pattern|];
  }

  /** A pattern without a slash occurs on one side of a slash or on the other. */
  lemma ContainsAround(a: Path, b: Path, pattern: Path)
    requires |pattern| > 0 && '/' !in pattern
    ensures Contains(a + ['/'] + b, pattern) <==> Contains(a, pattern) || Contains(b, pattern)
  {
    var s, n := a + ['/'] + b, |pattern|;
    assert s == [] + a + (['/'] + b) && s == (a + ['/']) + b + [];
    if Contains(s, pattern) {
      var i :| 0 <= i <= |s| && OccursAt(s, pattern, i);
      OccursChars(s, pattern, i);
      assert s[|a|] == '/' && !(i <= |a| < i + n);
      if i + n <= |a| {
        OccursInside(a, ['/'] + b, pattern, [], i);
      } else if i > |a| {
        OccursInside(b, [], pattern, a + ['/'], i - |a| - 1);
      }
    }
    if Contains(a, pattern) {
      var i :| 0 <= i <= |a| && OccursAt(a, pattern, i);
      OccursInside(a, ['/'] + b, pattern, [], i);
    }
    if Contains(b, pattern) {
      var i :| 0 <= i <= |b| && OccursAt(b, pattern, i);
      OccursInside(b, [], pattern, a + ['/'], i);
    }
  }

  lemma IgnoringCaseAround(a: Path, b: Path, pattern: Path)
    requires |pattern| > 0 && '/' !in pattern
    ensures ContainsIgnoringCase(a + ['/'] + b, pattern) <==> ContainsIgnoringCase(a, pattern) || ContainsIgnoringCase(b, pattern)
  {
    assert ToLower(a + ['/'] + b) == ToLower(a) + ['/'] + ToLower(b);
    ContainsAround(ToLower(a), ToLower(b), pattern);
  }

  lemma DoubleAround(a: Path, b: Path)
    ensures HasDoubleEncoding(a + ['/'] + b) <==> HasDoubleEncoding(a) || HasDoubleEncoding(b)
  {
    hide ContainsIgnoringCase;
    IgnoringCaseAround(a, b, "%252e");
    IgnoringCaseAround(a, b, "%252f");
    IgnoringCaseAround(a, b, "%2500");
    IgnoringCaseAround(a, b, "%255c");
  }

  ghost predicate AnyDouble(segs: seq<Path>) {
    exists i :: 0 <= i < |segs| && HasDoubleEncoding(segs[i])
  }

  lemma AnyDoubleNext(segs: seq<Path>, last: Path)
    ensures AnyDouble(segs + [last]) <==> AnyDouble(segs) || HasDoubleEncoding(last)
  {
    hide HasDoubleEncoding;
    var all := segs + [last];
    if HasDoubleEncoding(last) { assert HasDoubleEncoding(all[|segs|]); }
    if AnyDouble(segs) {
      var i :| 0 <= i < |segs| && HasDoubleEncoding(segs[i]);
      assert HasDoubleEncoding(all[i]);
    }
  }

  lemma {:induction false} DoubleInJoin(segs: seq<Path>)
    ensures HasDoubleEncoding(Join(segs)) <==> AnyDouble(segs)
  {
    if |segs| == 0 {
      NoDoubleInEmpty(Join(segs));
    } else {
      hide HasDoubleEncoding, Join;
      var init, last := segs[..|segs| - 1], segs[|segs| - 1];
      assert segs == init + [last];
      DoubleInJoin(init);
      JoinLast(init, last);
      DoubleAround(Join(init), last);
      AnyDoubleNext(init, last);
    }
  }

  /** A written path shows a pattern exactly when one of its segments does. */
  lemma DoubleInRender(segs: seq<Path>, trailing: bool)
    ensures HasDoubleEncoding(Render(segs, trailing)) <==> AnyDouble(segs)
  {
    hide HasDoubleEncoding;
    NoDoubleInEmpty([]);
    DoubleInJoin(segs);
    DoubleAround([], []);
    assert [] + ['/'] + [] == "/";
    DoubleAround(Join(segs), []);
    assert Join(segs) + ['/'] + [] == Join(segs) + "/";
    assert Join(segs) + "" == Join(segs);
  }

  lemma NoDoubleIfTrivial(s: Path)
    requires IsTrivial(s)
    ensures !HasDoubleEncoding(s)
  {
    assert '%' !in s;
    NoPercent(s);
  }

  ghost predicate AnyNormalDouble(segs: seq<Path>)
    requires AllValid(segs)
  {
    exists i :: 0 <= i < |segs| && HasDoubleEncoding(Normal(segs[i]))
  }

  /** The dropped segments show no pattern. */
  lemma {:induction false} DoubleInKeep(segs: seq<Path>)
    requires AllValid(segs)
    ensures AnyDouble(Keep(segs)) <==> AnyNormalDouble(segs)
  {
    hide Normal, ValidEscapes, HasDoubleEncoding;
    if |segs| == 0 {
    } else {
      var n := |segs| - 1;
      var init, last := segs[..n], Normal(segs[n]);
      DoubleInKeep(init);
      assert AnyNormalDouble(segs) <==> AnyNormalDouble(init) || HasDoubleEncoding(last) by {
        if AnyNormalDouble(init) {
          var i :| 0 <= i < n && HasDoubleEncoding(Normal(init[i]));
          assert HasDoubleEncoding(Normal(segs[i]));
        }
      }
      if IsTrivial(last) {
        NoDoubleIfTrivial(last);
        assert Keep(segs) == Keep(init);
      } else {
        AnyDoubleNext(Keep(init), last);
      }
    }
  }

  // ------------------------------------------------------------------ patterns by meaning

  function LowerByte(b: byte): byte {
    LowerChar(b as char) as int
  }

  predicate ShowsAt(d: seq<byte>, k: nat, a: Octet, b: Octet) {
    k + 2 < |d| && d[k] == PERCENT && LowerByte(d[k + 1]) == a as int && LowerByte(d[k + 2]) == b as int
  }

  predicate Shows(d: seq<byte>, a: Octet, b: Octet) {
    exists k: nat :: k < |d| && ShowsAt(d, k, a, b)
  }

  /** The decoded bytes contain, ignoring case, the text of an escape of `.`, `/`, NUL or `\`. */
  predicate ShowsEscape(d: seq<byte>) {
    Shows(d, '2', 'e') || Shows(d, '2', 'f') || Shows(d, '0', '0') || Shows(d, '5', 'c')
  }

  predicate LowerHex(c: Octet) {
    IsHex(c) && LowerChar(c) == c
  }

  lemma ShowsTail(d: seq<byte>, a: Octet, b: Octet)
    requires |d| > 0
    ensures Shows(d, a, b) <==> ShowsAt(d, 0, a, b) || Shows(d[1..], a, b)
  {
    hide LowerByte;
    if Shows(d[1..], a, b) {
      var k: nat :| k < |d| - 1 && ShowsAt(d[1..], k, a, b);
      assert ShowsAt(d, k + 1, a, b);
    }
    if Shows(d, a, b) && !ShowsAt(d, 0, a, b) {
      var k: nat :| k < |d| && ShowsAt(d, k, a, b);
      assert ShowsAt(d[1..], k - 1, a, b);
    }
  }

  /** No pattern starts inside an escape. */
  lemma ContainsTail(s: Path, n: nat, pattern: Path)
    requires 0 < n <= |s| && |pattern| > 0 && forall i :: 0 < i < n ==> s[i] != pattern[0]
    ensures Contains(s, pattern) <==> OccursAt(s, pattern, 0) || Contains(s[n..], pattern)
  {
    var m := |pattern|;
    if Contains(s[n..], pattern) {
      var i :| 0 <= i <= |s| - n && OccursAt(s[n..], pattern, i);
      assert s[n..][i..i + m] == s[n + i..n + i + m];
      assert OccursAt(s, pattern, n + i);
    }
    if Contains(s, pattern) && !OccursAt(s, pattern, 0) {
      var i :| 0 <= i <= |s| && OccursAt(s, pattern, i);
      assert s[i..i + m][0] == s[i];
      assert s[n..][i - n..i - n + m] == s[i..i + m];
      assert OccursAt(s[n..], pattern, i - n);
    }
  }

  /** The rest of a canonical segment is canonical. */
  lemma NormalTail(s: Path)
    requires |s| > 0 && ValidEscapes(s) && Normal(s) == s
    ensures var n := if s[0] == '%' then 3 else 1;
            && n <= |s| && ValidEscapes(s[n..]) && Normal(s[n..]) == s[n..]
            && (s[0] == '%' ==> IsHex(s[1]) && IsHex(s[2]) && !IsUnreserved(Value(s[1], s[2])))
            && Decode(s) == [if s[0] == '%' then Value(s[1], s[2]) else s[0] as int] + Decode(s[n..])
  {
    NormalAt(s, 0);
    DecodeAt(s, 0);
    assert s[0..] == s;
    var n := if s[0] == '%' then 3 else 1;
    hide Normal, Decode, Value;
    assert s == s[..n] + s[n..];
    if s[0] == '%' {
      assert s[0] == NormalEscape(s[1], s[2])[0];
      UnreservedNotPercent(s[1], s[2]);
    }
    assert Normal(s)[n..] == Normal(s[n..]);
  }

  lemma UnreservedNotPercent(h1: Octet, h2: Octet)
    requires IsHex(h1) && IsHex(h2)
    ensures NormalEscape(h1, h2)[0] == '%' <==> !IsUnreserved(Value(h1, h2))
    ensures Value(h1, h2) == PERCENT <==> h1 == '2' && h2 == '5'
  {
  }

  /** In a canonical segment an unreserved byte stands for itself. */
  lemma LiteralHead(s: Path, a: Octet)
    requires |s| > 0 && ValidEscapes(s) && Normal(s) == s && LowerHex(a)
    ensures LowerChar(s[0]) == a <==> LowerByte(Decode(s)[0]) == a as int
  {
    NormalTail(s);
    hide Normal, Decode;
    assert IsUnreserved(Decode(s)[0]) || LowerByte(Decode(s)[0]) != a as int;
  }

  /** Five characters at the front of a canonical segment, and the three bytes they stand for. */
  lemma HeadAgrees(s: Path, a: Octet, b: Octet)
    requires |s| > 0 && ValidEscapes(s) && Normal(s) == s && LowerHex(a) && LowerHex(b)
    ensures OccursAt(ToLower(s), ['%', '2', '5', a, b], 0) <==> ShowsAt(Decode(s), 0, a, b)
  {
    NormalTail(s);
    var n := if s[0] == '%' then 3 else 1;
    var rest := s[n..];
    if s[0] == '%' {
      UnreservedNotPercent(s[1], s[2]);
      if |rest| > 0 {
        LiteralHead(rest, a);
        NormalTail(rest);
        if rest[0] != '%' && |rest| > 1 { LiteralHead(rest[1..], b); }
      }
    }
    HeadText(s, a, b);
    SecondLiteral(rest, a);
    hide Normal, ToLower, OccursAt, LowerByte, HexDigitToVal, Value, ValidEscapes, IsUnreserved;
    assert |rest| > 1 ==> rest[0] == s[n] && rest[1] == s[n + 1];
  }

  /** A byte that reads as a hex digit leaves the rest one character shorter. */
  lemma SecondLiteral(s: Path, a: Octet)
    requires ValidEscapes(s) && Normal(s) == s && LowerHex(a)
    ensures |s| > 0 && LowerChar(s[0]) == a ==> s[0] != '%' && ValidEscapes(s[1..]) && Decode(s)[1..] == Decode(s[1..])
    ensures |s| == 0 ==> Decode(s) == []
    ensures |Decode(s)| <= |s|
  {
    DecodeShorter(s);
    if |s| > 0 { NormalTail(s); }
  }

  lemma {:induction false} DecodeShorter(s: Path)
    requires ValidEscapes(s)
    ensures |Decode(s)| <= |s|
  {
    if |s| == 0 {
    } else {
      DecodeAt(s, 0);
      assert s[0..] == s;
      DecodeShorter(s[if s[0] == '%' then 3 else 1..]);
    }
  }

  lemma HeadText(s: Path, a: Octet, b: Octet)
    ensures OccursAt(ToLower(s), ['%', '2', '5', a, b], 0) <==>
            |s| >= 5 && s[0] == '%' && s[1] == '2' && s[2] == '5' && LowerChar(s[3]) == a && LowerChar(s[4]) == b
  {
    var low := ToLower(s);
    if |s| >= 5 {
      assert low[0..5] == [low[0], low[1], low[2], low[3], low[4]];
    }
  }

  /** A canonical segment shows a double-encoding pattern exactly when what it stands for shows the
      escape behind it. */
  lemma {:induction false} PatternByMeaning(s: Path, a: Octet, b: Octet)
    requires ValidEscapes(s) && Normal(s) == s && LowerHex(a) && LowerHex(b)
    ensures ContainsIgnoringCase(s, ['%', '2', '5', a, b]) <==> Shows(Decode(s), a, b)
  {
    var pattern: Path := ['%', '2', '5', a, b];
    if |s| == 0 {
    } else {
      NormalTail(s);
      var n := if s[0] == '%' then 3 else 1;
      PatternByMeaning(s[n..], a, b);
      HeadAgrees(s, a, b);
      ShowsTail(Decode(s), a, b);
      assert Decode(s)[1..] == Decode(s[n..]);
      var low := ToLower(s);
      assert low[n..] == ToLower(s[n..]);
      InsideEscape(s, n);
      ContainsTail(low, n, pattern);
      hide Normal, Decode, ShowsAt, OccursAt, ToLower, Shows, Contains;
    }
  }

  lemma InsideEscape(s: Path, n: nat)
    requires n <= |s| && forall i :: 0 < i < n ==> IsHex(s[i])
    ensures forall i :: 0 < i < n ==> ToLower(s)[i] != '%'
  {
  }

  lemma DoubleByMeaning(s: Path)
    requires ValidEscapes(s)
    ensures ValidEscapes(Normal(s)) && (HasDoubleEncoding(Normal(s)) <==> ShowsEscape(Decode(s)))
  {
    NormalFacts(s, {});
    var c := Normal(s);
    PatternByMeaning(c, '2', 'e');
    PatternByMeaning(c, '2', 'f');
    PatternByMeaning(c, '0', '0');
    PatternByMeaning(c, '5', 'c');
    hide Normal, Decode, Shows, ContainsIgnoringCase;
  }

  /** Some segment stands for bytes that contain the text of a forbidden escape. */
  ghost predicate HidesEscape(raw: Path)
    requires AllValid(Split(raw))
  {
    exists i :: 0 <= i < |Split(raw)| && ShowsEscape(Decode(Split(raw)[i]))
  }

  lemma DoubleSurfacesIff(raw: Path, trailing: bool)
    requires AllValid(Split(raw))
    ensures HasDoubleEncoding(Render(Keep(Split(raw)), trailing)) <==> HidesEscape(raw)
  {
    var segs := Split(raw);
    DoubleInRender(Keep(segs), trailing);
    DoubleInKeep(segs);
    hide Split, Normal, Decode, HasDoubleEncoding, ShowsEscape, Keep, ValidEscapes;
    forall i | 0 <= i < |segs| ensures HasDoubleEncoding(Normal(segs[i])) <==> ShowsEscape(Decode(segs[i])) {
      DoubleByMeaning(segs[i]);
    }
  }

  // ----------------------------------------------------------------------- UTF-8 on the way

  predicate IsAscii(c: Octet) {
    c as int < 128
  }

  predicate AllAscii(s: Path) {
    forall i :: 0 <= i < |s| ==> IsAscii(s[i])
  }

  /** The UTF-8 bytes of a character below 256 (section 3 of RFC 3629). */
  function EncodeChar(c: Octet): Path {
    if IsAscii(c) then [c] else [(0xC0 + c as int / 64) as char, (0x80 + c as int % 64) as char]
  }

  /** The bytes of a text of such characters: what the next reader of an output gets. */
  function Utf8(s: Path): Path {
    if |s| == 0 then [] else EncodeChar(s[0]) + Utf8(s[1..])
  }

  lemma Utf8Unfolds(s: Path)
    requires |s| > 0
    ensures Utf8(s) == EncodeChar(s[0]) + Utf8(s[1..])
  {
  }

  lemma {:induction false} Utf8Append(a: Path, b: Path)
    ensures Utf8(a + b) == Utf8(a) + Utf8(b)
  {
    hide EncodeChar;
    if |a| == 0 {
      assert a + b == b;
    } else {
      Utf8Append(a[1..], b);
      assert (a + b)[1..] == a[1..] + b;
      var head, x, y := EncodeChar(a[0]), Utf8(a[1..]), Utf8(b);
      Utf8Unfolds(a + b);
      Utf8Unfolds(a);
      hide Utf8;
      assert head + (x + y) == (head + x) + y;
    }
  }

  lemma Utf8One(c: Octet)
    ensures Utf8([c]) == EncodeChar(c)
  {
    assert [c][1..] == [];
  }

  /** ASCII text is its own encoding; any other text grows. */
  lemma {:induction false} Utf8Grows(s: Path)
    ensures AllAscii(s) <==> Utf8(s) == s
    ensures AllAscii(s) <==> |Utf8(s)| == |s|
    ensures |Utf8(s)| >= |s| && (AllAscii(Utf8(s)) ==> AllAscii(s))
  {
    if |s| == 0 {
    } else {
      Utf8Grows(s[1..]);
      AsciiHead(s);
      assert s == [s[0]] + s[1..];
      assert !IsAscii(s[0]) ==> !IsAscii(Utf8(s)[0]);
      AsciiTail(EncodeChar(s[0]), Utf8(s[1..]));
    }
  }

  lemma AsciiHead(s: Path)
    requires |s| > 0
    ensures AllAscii(s) <==> IsAscii(s[0]) && AllAscii(s[1..])
  {
    if IsAscii(s[0]) && AllAscii(s[1..]) {
      forall i | 0 <= i < |s| ensures IsAscii(s[i]) {
        assert i > 0 ==> s[i] == s[1..][i - 1];
      }
    }
  }

  lemma AsciiTail(a: Path, b: Path)
    ensures AllAscii(a + b) <==> AllAscii(a) && AllAscii(b)
  {
    if AllAscii(a + b) {
      forall i | 0 <= i < |a| ensures IsAscii(a[i]) { assert (a + b)[i] == a[i]; }
      forall i | 0 <= i < |b| ensures IsAscii(b[i]) { assert (a + b)[|a| + i] == b[i]; }
    }
  }

  /** Encoding neither adds nor removes an ASCII character. */
  lemma {:induction false} Utf8KeepsAscii(s: Path, c: Octet)
    requires IsAscii(c)
    ensures c in Utf8(s) <==> c in s
  {
    if |s| == 0 {
    } else {
      Utf8KeepsAscii(s[1..], c);
      assert s == [s[0]] + s[1..];
    }
  }

  /** Nor an escape: normalising and encoding commute. */
  lemma {:induction false} Utf8Escapes(s: Path, avoid: set<byte>)
    requires ValidEscapes(s) && Avoids(s, avoid)
    ensures ValidEscapes(Utf8(s)) && Avoids(Utf8(s), avoid)
    ensures Normal(Utf8(s)) == Utf8(Normal(s))
    ensures |Decode(Utf8(s))| == |Decode(s)| + |Utf8(s)| - |s|
  {
    if |s| == 0 {
    } else {
      NormalAt(s, 0);
      DecodeAt(s, 0);
      assert s[0..] == s;
      var n := if s[0] == '%' then 3 else 1;
      AvoidsSuffix(s, n, avoid);
      Utf8Escapes(s[n..], avoid);
      var tok := s[..n];
      TokenEncodes(s, n, avoid);
      hide Normal, Decode, Avoids, ValidEscapes, Utf8, EncodeChar;
      assert s == tok + s[n..];
      Utf8Append(tok, s[n..]);
      Utf8Append(if s[0] == '%' then NormalEscape(s[1], s[2]) else [s[0]], Normal(s[n..]));
      NormalAppend(Utf8(tok), Utf8(s[n..]));
      AvoidsAppend(Utf8(tok), Utf8(s[n..]), avoid);
    }
  }

  /** One escape, or one other character. */
  lemma TokenEncodes(s: Path, n: nat, avoid: set<byte>)
    requires |s| > 0 && ValidEscapes(s) && Avoids(s, avoid) && n == (if s[0] == '%' then 3 else 1) && n <= |s|
    requires s[0] == '%' ==> IsHex(s[1]) && IsHex(s[2])
    ensures var tok := Utf8(s[..n]);
            var head := if s[0] == '%' then NormalEscape(s[1], s[2]) else [s[0]];
            && ValidEscapes(tok) && Avoids(tok, avoid) && Normal(tok) == Utf8(head)
            && |Decode(tok)| == 1 + |tok| - n
  {
    assert EscapeOk(s, 0, avoid) && EscapeOk(s, 0, {});
    if s[0] == '%' {
      var tok := s[..3];
      assert tok == ['%', s[1], s[2]];
      assert AllAscii(tok) && AllAscii(NormalEscape(s[1], s[2]));
      Utf8Grows(tok);
      Utf8Grows(NormalEscape(s[1], s[2]));
      SpellingsAgree(s[1], s[2]);
      EscapeAlone(tok, avoid);
    } else {
      assert s[..1] == [s[0]];
      Utf8One(s[0]);
      LiteralsNormal(EncodeChar(s[0]), avoid);
    }
  }

  lemma EscapeAlone(tok: Path, avoid: set<byte>)
    requires |tok| == 3 && tok[0] == '%' && IsHex(tok[1]) && IsHex(tok[2]) && Value(tok[1], tok[2]) !in avoid
    ensures Avoids(tok, avoid) && ValidEscapes(tok) && |Decode(tok)| == 1
  {
    assert tok[3..] == [];
  }

  lemma LiteralsNormal(s: Path, avoid: set<byte>)
    requires 1 <= |s| <= 2 && '%' !in s
    ensures ValidEscapes(s) && Avoids(s, avoid) && Normal(s) == s && |Decode(s)| == |s|
  {
    assert s[0] in s && s[|s| - 1] in s;
    var rest := s[1..];
    assert s == [s[0]] + rest;
    if |rest| == 1 {
      assert rest[0] == s[1] && rest[1..] == [];
      assert rest == [rest[0]];
      assert Normal(rest) == rest;
    }
  }

  // -------------------------------------------------- encoding a whole output

  function Utf8All(segs: seq<Path>): (r: seq<Path>)
    ensures |r| == |segs| && forall i :: 0 <= i < |segs| ==> r[i] == Utf8(segs[i])
  {
    seq(|segs|, i requires 0 <= i < |segs| => Utf8(segs[i]))
  }

  lemma {:induction false} Utf8Join(segs: seq<Path>)
    ensures Utf8(Join(segs)) == Join(Utf8All(segs))
  {
    if |segs| == 0 {
    } else {
      Utf8Join(segs[1..]);
      assert Utf8All(segs)[1..] == Utf8All(segs[1..]);
      Utf8Append(['/'] + segs[0], Join(segs[1..]));
      Utf8Append(['/'], segs[0]);
      Utf8One('/');
    }
  }

  lemma Utf8Render(segs: seq<Path>, trailing: bool)
    ensures Utf8(Render(segs, trailing)) == Render(Utf8All(segs), trailing)
  {
    Utf8Join(segs);
    Utf8One('/');
    Utf8Append(Join(segs), if trailing then "/" else "");
  }

  lemma CanonicalEncodes(s: Path, avoid: set<byte>)
    requires Canonical(s, avoid)
    ensures Canonical(Utf8(s), avoid)
  {
    Utf8Escapes(s, avoid);
    Utf8KeepsAscii(s, '/');
    Utf8KeepsAscii(s, '\\');
    Utf8KeepsAscii(s, '\0');
    Utf8Grows(s);
    assert AllAscii("") && AllAscii(".") && AllAscii("..");
    hide Normal, Avoids, Utf8;
  }

  lemma AllCanonicalEncodes(segs: seq<Path>, avoid: set<byte>)
    requires AllCanonical(segs, avoid)
    ensures AllCanonical(Utf8All(segs), avoid)
  {
    hide Canonical;
    forall i | 0 <= i < |segs| ensures Canonical(Utf8All(segs)[i], avoid) {
      CanonicalEncodes(segs[i], avoid);
    }
  }

  /** Encoding neither makes nor breaks an ASCII pattern. */
  lemma {:induction false} Utf8Prefix(s: Path, pattern: Path)
    requires AllAscii(pattern)
    ensures pattern <= Utf8(s) <==> pattern <= s
  {
    if |pattern| == 0 || |s| == 0 {
    } else {
      AsciiHead(pattern);
      Utf8Prefix(s[1..], pattern[1..]);
      PrefixHead(s, pattern);
      if IsAscii(s[0]) {
        assert Utf8(s)[0] == s[0] && Utf8(s)[1..] == Utf8(s[1..]);
        PrefixHead(Utf8(s), pattern);
      } else {
        assert !IsAscii(Utf8(s)[0]);
      }
    }
  }

  lemma PrefixHead(s: Path, pattern: Path)
    requires |s| > 0 && |pattern| > 0
    ensures pattern <= s <==> pattern[0] == s[0] && pattern[1..] <= s[1..]
  {
    if pattern[0] == s[0] && pattern[1..] <= s[1..] {
      assert pattern == [pattern[0]] + pattern[1..] && s == [s[0]] + s[1..];
    }
  }

  lemma {:induction false} Utf8Contains(s: Path, pattern: Path)
    requires AllAscii(pattern) && |pattern| > 0
    ensures Contains(Utf8(s), pattern) <==> Contains(s, pattern)
  {
    if |s| == 0 {
    } else {
      Utf8Contains(s[1..], pattern);
      Utf8Prefix(s, pattern);
      var n := |EncodeChar(s[0])|;
      var wire := Utf8(s);
      assert wire[n..] == Utf8(s[1..]);
      assert forall i :: 0 < i < n ==> wire[i] == EncodeChar(s[0])[i];
      ContainsTail(wire, n, pattern);
      ContainsTail(s, 1, pattern);
      OccursAtFront(s, pattern);
      OccursAtFront(wire, pattern);
      hide Utf8, Contains, OccursAt;
    }
  }

  lemma OccursAtFront(s: Path, pattern: Path)
    ensures OccursAt(s, pattern, 0) <==> pattern <= s
  {
    if |pattern| <= |s| { assert s[0..|pattern|] == s[..|pattern|]; }
  }

  lemma LowerEncoded(c: Octet)
    ensures ToLower(EncodeChar(c)) == EncodeChar(LowerChar(c))
  {
  }

  lemma LowerAppend(a: Path, b: Path)
    ensures ToLower(a + b) == ToLower(a) + ToLower(b)
  {
  }

  lemma {:induction false} Utf8Lower(s: Path)
    ensures ToLower(Utf8(s)) == Utf8(ToLower(s))
  {
    if |s| == 0 {
    } else {
      Utf8Lower(s[1..]);
      assert ToLower(s)[1..] == ToLower(s[1..]);
      LowerEncoded(s[0]);
      Utf8Unfolds(ToLower(s));
      hide EncodeChar, Utf8;
      LowerAppend(EncodeChar(s[0]), Utf8(s[1..]));
      Utf8Unfolds(s);
    }
  }

  lemma Utf8Double(s: Path)
    ensures HasDoubleEncoding(Utf8(s)) <==> HasDoubleEncoding(s)
  {
    Utf8Lower(s);
    var low := ToLower(s);
    Utf8Contains(low, "%252e");
    Utf8Contains(low, "%252f");
    Utf8Contains(low, "%2500");
    Utf8Contains(low, "%255c");
    hide Contains, Utf8, ToLower;
  }

  // ------------------------------------------------------- non-ASCII characters survive

  ghost predicate EachAscii(segs: seq<Path>) {
    forall i :: 0 <= i < |segs| ==> AllAscii(segs[i])
  }

  lemma EachAsciiNext(segs: seq<Path>, last: Path)
    ensures EachAscii(segs + [last]) <==> EachAscii(segs) && AllAscii(last)
  {
    hide AllAscii;
    var all := segs + [last];
    if EachAscii(all) {
      assert AllAscii(all[|segs|]);
      forall i | 0 <= i < |segs| ensures AllAscii(segs[i]) { assert AllAscii(all[i]); }
    }
  }

  lemma {:induction false} AsciiJoin(segs: seq<Path>)
    ensures AllAscii(Join(segs)) <==> EachAscii(segs)
  {
    if |segs| == 0 {
    } else {
      hide Join, AllAscii;
      var init, last := segs[..|segs| - 1], segs[|segs| - 1];
      assert segs == init + [last];
      AsciiJoin(init);
      JoinLast(init, last);
      AsciiTail(Join(init) + ['/'], last);
      AsciiTail(Join(init), ['/']);
      AsciiSlash();
      EachAsciiNext(init, last);
    }
  }

  lemma AsciiSlash()
    ensures AllAscii(['/']) && AllAscii("") && AllAscii(".")
  {
  }

  lemma {:induction false} AsciiNormal(s: Path)
    requires ValidEscapes(s)
    ensures AllAscii(Normal(s)) <==> AllAscii(s)
  {
    if |s| == 0 {
    } else {
      NormalAt(s, 0);
      assert s[0..] == s;
      var n := if s[0] == '%' then 3 else 1;
      AsciiNormal(s[n..]);
      var head := if s[0] == '%' then NormalEscape(s[1], s[2]) else [s[0]];
      assert s == s[..n] + s[n..];
      AsciiTail(s[..n], s[n..]);
      AsciiTail(head, Normal(s[n..]));
      assert s[0] == '%' ==> s[..n] == ['%', s[1], s[2]];
      assert s[0] != '%' ==> s[..n] == head;
      assert AllAscii(s[..n]) <==> AllAscii(head);
      hide Normal;
    }
  }

  lemma {:induction false} AsciiKeep(segs: seq<Path>)
    requires AllValid(segs)
    ensures EachAscii(Keep(segs)) <==> EachAscii(segs)
  {
    hide Normal, ValidEscapes, AllAscii;
    if |segs| == 0 {
    } else {
      var n := |segs| - 1;
      AsciiKeep(segs[..n]);
      AsciiNormal(segs[n]);
      assert segs == segs[..n] + [segs[n]];
      EachAsciiNext(segs[..n], segs[n]);
      AsciiSlash();
      if IsTrivial(Normal(segs[n])) {
        assert Keep(segs) == Keep(segs[..n]);
      } else {
        EachAsciiNext(Keep(segs[..n]), Normal(segs[n]));
      }
    }
  }

  /** An output is ASCII exactly when its input was. */
  lemma AsciiOutput(raw: Path, trailing: bool)
    requires AllValid(Split(raw))
    ensures AllAscii(Render(Keep(Split(raw)), trailing)) <==> AllAscii(raw)
  {
    var segs := Split(raw);
    hide Split, Keep, AllAscii, Join;
    JoinSplit(raw);
    AsciiSlash();
    AsciiTail(['/'], raw);
    AsciiJoin(segs);
    AsciiKeep(segs);
    AsciiJoin(Keep(segs));
    AsciiTail(Join(Keep(segs)), if trailing then "/" else "");
    JoinOfNone(Keep(segs));
  }

  lemma JoinOfNone(segs: seq<Path>)
    ensures |segs| == 0 ==> Join(segs) == [] && EachAscii(segs)
  {
  }

  // ------------------------------------------------------------------------ the second pass

  /** The second pass over what the first one wrote. It fails in one way only, for a double-encoding
      pattern, and exactly when some segment of the input stands for bytes that contain the text of
      an escape of `.`, `/`, NUL or a backslash, which takes `%25` in the input. Otherwise it returns
      the bytes it reads, one character each; these are the first output again exactly when the
      input was ASCII. */
  lemma SecondPass(raw: Path)
    requires Sanitize(raw).Ok?
    ensures AllValid(Split(raw))
    ensures var out := Sanitize(raw).value;
            && Sanitize(Utf8(out)) == (if HidesEscape(raw) then Err(DoubleEncoding) else Ok(Utf8(out)))
            && (HidesEscape(raw) <==> HasDoubleEncoding(out))
            && (HidesEscape(raw) ==> ContainsIgnoringCase(raw, "%25"))
            && (Utf8(out) == out <==> AllAscii(raw))
  {
    if raw == "" {
      SecondPassOfNothing(raw);
    } else {
      RawChecksPass(raw);
      AcceptedSegments(raw, FORBIDDEN);
      var segs, trailing := Keep(Split(raw)), TrailingSlash(raw);
      SecondPassOfSegments(segs, trailing);
      DoubleSurfacesIff(raw, trailing);
      AsciiOutput(raw, trailing);
      Utf8Grows(Render(segs, trailing));
      PercentNeeded(raw);
    }
  }

  lemma SecondPassOfSegments(segs: seq<Path>, trailing: bool)
    requires AllCanonical(segs, FORBIDDEN)
    ensures var out := Render(segs, trailing);
            Sanitize(Utf8(out)) == if HasDoubleEncoding(out) then Err(DoubleEncoding) else Ok(Utf8(out))
  {
    hide Sanitize, Render, HasDoubleEncoding, Utf8, AllCanonical;
    Utf8Render(segs, trailing);
    AllCanonicalEncodes(segs, FORBIDDEN);
    RenderedSecondPass(Utf8All(segs), trailing);
    Utf8Double(Render(segs, trailing));
  }

  lemma PercentNeeded(raw: Path)
    requires raw != "" && Sanitize(raw).Ok?
    ensures HasDoubleEncoding(Sanitize(raw).value) ==> ContainsIgnoringCase(raw, "%25")
  {
    RawChecksPass(raw);
    AcceptedSegments(raw, FORBIDDEN);
    var out, segs := Sanitize(raw).value, Keep(Split(raw));
    if Avoids(raw, {PERCENT}) {
      AcceptedSegments(raw, {PERCENT});
      RenderClean(segs, TrailingSlash(raw), {PERCENT});
      AvoidsFewer(out, {PERCENT}, {});
      if HasDoubleEncoding(out) { DoubleNeedsPercent(out); }
    } else {
      FindsEscape(raw, '2', '5');
    }
  }

  lemma SecondPassOfNothing(raw: Path)
    requires raw == ""
    ensures AllValid(Split(raw)) && !HidesEscape(raw) && !HasDoubleEncoding("/")
    ensures Utf8("/") == "/" && Sanitize("/") == Ok("/") && AllAscii(raw)
  {
    assert Split(raw) == [[]];
    DoubleInRender([], false);
    SecondPassOfSegments([], false);
    Utf8One('/');
  }

  /** Sanitising is idempotent, through the encoding between the passes, exactly on ASCII input that
      hides no escape. */
  lemma IdempotentIff(raw: Path)
    requires Sanitize(raw).Ok?
    ensures AllValid(Split(raw))
    ensures Sanitize(Utf8(Sanitize(raw).value)) == Sanitize(raw) <==> AllAscii(raw) && !HidesEscape(raw)
  {
    SecondPass(raw);
  }

  /** What the upstream reads: the bytes written for an accepted path have the meaning of the input
      exactly when the input was ASCII. */
  lemma WireMeaningIff(raw: Path)
    requires raw != "" && Sanitize(raw).Ok?
    ensures var wire := Utf8(Sanitize(raw).value);
            && AllValid(Split(raw)) && AllValid(NonEmpty(Split(wire)))
            && (DecodeAll(NonEmpty(Split(wire))) == Meaningful(DecodeAll(Split(raw))) <==> AllAscii(raw))
  {
    RawChecksPass(raw);
    AcceptedSegments(raw, FORBIDDEN);
    var segs, trailing := Keep(Split(raw)), TrailingSlash(raw);
    KeepDecodes(Split(raw));
    AsciiOutput(raw, trailing);
    AsciiSegments(segs, trailing);
    hide Sanitize, Split, Keep, TrailingSlash, DecodeAll, Meaningful, Utf8, AllAscii, Render;
    Utf8Render(segs, trailing);
    AllCanonicalEncodes(segs, FORBIDDEN);
    SegmentsOnWire(Utf8All(segs), trailing);
    SameMeaningIff(segs);
  }

  lemma AsciiSegments(segs: seq<Path>, trailing: bool)
    ensures AllAscii(Render(segs, trailing)) <==> EachAscii(segs)
  {
    hide AllAscii, Join;
    AsciiSlash();
    AsciiJoin(segs);
    AsciiTail(Join(segs), if trailing then "/" else "");
    JoinOfNone(segs);
  }

  lemma SegmentsOnWire(segs: seq<Path>, trailing: bool)
    requires AllCanonical(segs, FORBIDDEN)
    ensures NonEmpty(Split(Render(segs, trailing))) == segs && AllValid(segs)
  {
    hide Normal, Avoids, Split;
    forall i | 0 <= i < |segs| ensures '/' !in segs[i] && segs[i] != [] && ValidEscapes(segs[i]) {
      assert Canonical(segs[i], FORBIDDEN);
    }
    SplitRender(segs, trailing);
    NonEmptyFramed(segs, trailing);
  }

  lemma SameMeaningIff(segs: seq<Path>)
    requires AllCanonical(segs, FORBIDDEN) && AllValid(segs) && AllValid(Utf8All(segs))
    ensures DecodeAll(Utf8All(segs)) == DecodeAll(segs) <==> EachAscii(segs)
  {
    var wire := Utf8All(segs);
    DecodeAllLength(segs);
    DecodeAllLength(wire);
    forall i | 0 <= i < |segs| ensures Decode(wire[i]) == Decode(segs[i]) <==> AllAscii(segs[i]) {
      Utf8Escapes(segs[i], {});
      Utf8Grows(segs[i]);
    }
    hide Decode, Utf8, AllAscii, Canonical;
    if DecodeAll(wire) == DecodeAll(segs) {
      forall i | 0 <= i < |segs| ensures AllAscii(segs[i]) {
        assert DecodeAll(wire)[i] == DecodeAll(segs)[i];
      }
    }
    if EachAscii(segs) {
      forall i | 0 <= i < |segs| ensures DecodeAll(wire)[i] == DecodeAll(segs)[i] {
        assert AllAscii(segs[i]);
      }
    }
  }

  /** The pattern can surface: `%32` is decoded to `2` behind an encoded percent sign. */
  lemma DoubleEncodingSurfaces()
    ensures Sanitize("/%25%32e") == Ok("/%252e") && Utf8("/%252e") == "/%252e"
    ensures Sanitize("/%252e") == Err(DoubleEncoding)
    ensures PairwiseEquivalent(Split("/%25%32e"), Split("/%252e"))
  {
    var raw: Path, seg: Path, out: Path := "/%25%32e", "%25%32e", "/%252e";
    ExampleSegment(seg);
    assert raw == ['/'] + seg && out == ['/'] + Normal(seg);
    ShowsPattern(out);
    hide Sanitize, HasDoubleEncoding, AllAscii, Normal, Split, Utf8, Avoids, Contains, ToLower;
    NotDouble(raw);
    SingleSegment(seg);
    Utf8Grows(out);
    SecondPass(raw);
    SpellingsPaired(seg);
  }

  /** A segment and its canonical spelling, as paths. */
  lemma SpellingsPaired(seg: Path)
    requires ValidEscapes(seg) && '/' !in seg
    ensures PairwiseEquivalent(Split(['/'] + seg), Split(['/'] + Normal(seg)))
  {
    NormalAddsNoSpecial(seg, '/');
    SingleSplit(seg);
    SingleSplit(Normal(seg));
    SelfEquivalent([]);
    NormalFacts(seg, {});
    NormalEqualIffEquivalent(seg, Normal(seg));
    hide Split, Normal, Equivalent;
  }

  lemma ShowsPattern(s: Path)
    requires s == "/%252e"
    ensures HasDoubleEncoding(s) && AllAscii(s)
  {
    assert ToLower(s)[1..6] == "%252e";
    assert OccursAt(ToLower(s), "%252e", 1);
  }

  /** A path of one ordinary segment is sent to its canonical spelling. */
  lemma SingleSegment(seg: Path)
    requires ValidEscapes(seg) && '/' !in seg && !IsTrivial(seg) && !IsTrivial(Normal(seg)) && Normal(seg) != ".."
    requires NoSpecial(['/'] + seg) && Avoids(['/'] + seg, FORBIDDEN) && !HasDoubleEncoding(['/'] + seg)
    ensures Sanitize(['/'] + seg) == Ok(['/'] + Normal(seg))
  {
    var raw: Path := ['/'] + seg;
    RawChecksPass(raw);
    SingleSplit(seg);
    KeepTwo(seg);
    NoTrailing([], seg);
    assert raw == [] + ['/'] + seg;
    SanitizedByParts(raw);
    hide *;
    RenderOne(Normal(seg));
  }

  lemma SanitizedByParts(raw: Path)
    requires raw != "" && raw[0] == '/' && RawError(raw).None? && AllValid(Split(raw)) && !HasTraversal(Split(raw))
    ensures Sanitize(raw) == Ok(Render(Keep(Split(raw)), TrailingSlash(raw)))
  {
    hide RawError, Split, HasTraversal, Keep, Render, TrailingSlash;
  }

  lemma RenderOne(seg: Path)
    ensures Render([seg], false) == ['/'] + seg
  {
    JoinCons(seg, []);
    assert [seg] + [] == [seg];
  }

  lemma SingleSplit(seg: Path)
    requires '/' !in seg
    ensures Split(['/'] + seg) == [[], seg]
  {
    hide Split;
    var raw: Path := ['/'] + seg;
    assert raw[..0] == [] && raw[1..] == seg && seg[..|seg|] == seg;
    SplitAt(raw, 0);
    SplitAt(seg, |seg|);
  }

  /** Bytes are pushed as characters: the two bytes of a letter outside ASCII come out as two
      characters, which are four bytes on the wire. */
  lemma NonAsciiGrows()
    ensures Sanitize(['/', 195 as char, 169 as char]) == Ok(['/', 195 as char, 169 as char])
    ensures Utf8(['/', 195 as char, 169 as char]) == ['/', 195 as char, 131 as char, 194 as char, 169 as char]
  {
    var seg: Path := [195 as char, 169 as char];
    var raw: Path := ['/'] + seg;
    assert raw == ['/', 195 as char, 169 as char];
    LiteralsNormal(seg, FORBIDDEN);
    Utf8One('/');
    Utf8One(195 as char);
    Utf8One(169 as char);
    assert seg == [195 as char] + [169 as char];
    Utf8Append([195 as char], [169 as char]);
    Utf8Append(['/'], seg);
    hide Sanitize, Normal, Utf8, Avoids, HasDoubleEncoding;
    NoPercent(raw);
    SingleSegment(seg);
  }

  lemma ExampleSegment(seg: Path)
    requires seg == "%25%32e"
    ensures ValidEscapes(seg) && Normal(seg) == "%252e" && Avoids(['/'] + seg, FORBIDDEN)
  {
    var two: Path := "%32e";
    assert seg[3..] == two && two[3..] == "e" && "e"[1..] == "";
    assert Normal("e") == "e";
    assert Normal(two) == "2e";
  }

  lemma KeepTwo(seg: Path)
    requires ValidEscapes(seg) && !IsTrivial(Normal(seg)) && Normal(seg) != ".."
    ensures AllValid([[], seg]) && Keep([[], seg]) == [Normal(seg)] && !HasTraversal([[], seg])
  {
    EmptyKept([[]]);
    assert [[], seg][..1] == [[]];
  }

  lemma NotDouble(s: Path)
    requires s == "/%25%32e"
    ensures !HasDoubleEncoding(s)
  {
    assert ToLower(s) == s;
    NoOccurrence(s, "%252e");
    NoOccurrence(s, "%252f");
    NoOccurrence(s, "%2500");
    NoOccurrence(s, "%255c");
  }

  lemma NoOccurrence(s: Path, pattern: Path)
    requires s == "/%25%32e" && |pattern| == 5 && pattern[0] == '%' && pattern[3] != '%'
    ensures !Contains(s, pattern)
  {
    forall i | 0 <= i <= |s| ensures !OccursAt(s, pattern, i) {
      if i + 5 <= |s| {
        var found := s[i..i + 5];
        assert found[0] == s[i] && found[3] == s[i + 3];
      }
    }
  }
}
