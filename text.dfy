/**
  The Python string operations the response side is built from: `str.replace`,
  `str.split(sep, 1)`, `in`, `str(int)`, `str.encode('utf-8')` and the one
  regular-expression substitution `re.sub(r'Content-Length: [0-9]+', ...)`.
 */
module Text {
  import opened Wrappers

  predicate OccursAt(s: string, sub: string, i: nat)
  {
    i + |sub| <= |s| && s[i..i + |sub|] == sub
  }

  /** Python's `sub in s`. */
  predicate Contains(s: string, sub: string)
  {
    exists i: nat :: i + |sub| <= |s| && OccursAt(s, sub, i)
  }

  // ---------------------------------------------------------------- str.replace

  /** Python's `s.replace(old, new)`: every occurrence, scanning left to right,
      without overlaps. The proxy only replaces non-empty URLs. */
  function ReplaceAll(s: string, pat: string, rep: string): string
    requires |pat| > 0
    decreases |s|
  {
    if |s| < |pat| then s
    else if s[..|pat|] == pat then rep + ReplaceAll(s[|pat|..], pat, rep)
    else [s[0]] + ReplaceAll(s[1..], pat, rep)
  }

  /** Replacing a string that does not occur is the identity. */
  lemma {:induction false} ReplaceAbsent(s: string, pat: string, rep: string)
    requires |pat| > 0 && !Contains(s, pat)
    ensures ReplaceAll(s, pat, rep) == s
    decreases |s|
  {
    if |s| >= |pat| {
      assert !OccursAt(s, pat, 0);
      assert s[..|pat|] != pat;
      assert !Contains(s[1..], pat) by {
        forall i: nat | i + |pat| <= |s[1..]|
          ensures !OccursAt(s[1..], pat, i)
        {
          OccursShift(s, pat, i);
        }
      }
      ReplaceAbsent(s[1..], pat, rep);
      assert ReplaceAll(s, pat, rep) == [s[0]] + ReplaceAll(s[1..], pat, rep);
      assert [s[0]] + s[1..] == s;
    }
  }

  /** Replacing a string by itself is the identity. */
  lemma {:induction false} ReplaceByItself(s: string, pat: string)
    requires |pat| > 0
    ensures ReplaceAll(s, pat, pat) == s
    decreases |s|
  {
    if |s| >= |pat| {
      if s[..|pat|] == pat {
        ReplaceByItself(s[|pat|..], pat);
        assert s[..|pat|] + s[|pat|..] == s;
      } else {
        ReplaceByItself(s[1..], pat);
        assert [s[0]] + s[1..] == s;
      }
    }
  }

  lemma OccursShift(s: string, sub: string, i: nat)
    requires |s| > 0
    ensures OccursAt(s[1..], sub, i) == OccursAt(s, sub, i + 1)
  {
    if i + 1 + |sub| <= |s| {
      assert s[1..][i..i + |sub|] == s[i + 1..i + 1 + |sub|];
    }
  }

  /** The leftmost occurrence is the one replaced, and the scan resumes after it. */
  lemma {:induction false} ReplaceLeftmost(p: string, q: string, pat: string, rep: string)
    requires |pat| > 0
    requires forall i: nat :: i < |p| ==> !OccursAt(p + pat + q, pat, i)
    ensures ReplaceAll(p + pat + q, pat, rep) == p + rep + ReplaceAll(q, pat, rep)
    decreases |p|
  {
    var s := p + pat + q;
    if |p| == 0 {
      assert s == pat + q;
      assert s[..|pat|] == pat && s[|pat|..] == q;
    } else {
      assert !OccursAt(s, pat, 0);
      var s' := p[1..] + pat + q;
      assert s[1..] == s';
      forall i: nat | i < |p[1..]|
        ensures !OccursAt(s', pat, i)
      {
        OccursShift(s, pat, i);
      }
      ReplaceLeftmost(p[1..], q, pat, rep);
      assert ReplaceAll(s, pat, rep) == [s[0]] + ReplaceAll(s', pat, rep);
      assert [p[0]] + p[1..] == p;
    }
  }

  // ---------------------------------------------------------------- str.split(sep, 1)

  function FirstOccurrenceFrom(s: string, sep: string, i: nat): (r: Option<nat>)
    requires i <= |s|
    ensures r.Some? ==> i <= r.value && OccursAt(s, sep, r.value)
    ensures r.Some? ==> forall j: nat :: i <= j < r.value ==> !OccursAt(s, sep, j)
    ensures r.None? ==> forall j: nat :: i <= j ==> !OccursAt(s, sep, j)
    decreases |s| - i
  {
    if OccursAt(s, sep, i) then Some(i)
    else if i + |sep| >= |s| then None
    else FirstOccurrenceFrom(s, sep, i + 1)
  }

  /** Python's `s.split(sep, 1)` when it yields two parts: the text before the
      first occurrence of sep and the text after it. None when it yields one. */
  function SplitOnce(s: string, sep: string): (r: Option<(string, string)>)
    requires |sep| > 0
    ensures r.Some? ==> r.value.0 + sep + r.value.1 == s
    ensures r.Some? ==> forall j: nat :: j < |r.value.0| ==> !OccursAt(s, sep, j)
    ensures r.None? <==> !Contains(s, sep)
  {
    match FirstOccurrenceFrom(s, sep, 0)
    case None => None
    case Some(k) =>
      assert s[..k] + sep + s[k + |sep|..] == s by {
        assert s[k..k + |sep|] == sep;
        assert s == s[..k] + s[k..k + |sep|] + s[k + |sep|..];
      }
      Some((s[..k], s[k + |sep|..]))
  }

  /** A string that first has sep right after a splits into a and the rest. */
  lemma SplitOnceAt(a: string, sep: string, b: string)
    requires |sep| > 0
    requires forall j: nat :: j < |a| ==> !OccursAt(a + sep + b, sep, j)
    ensures SplitOnce(a + sep + b, sep) == Some((a, b))
  {
    var s := a + sep + b;
    assert s[|a|..|a| + |sep|] == sep;
    assert OccursAt(s, sep, |a|);
    assert s[..|a|] == a && s[|a| + |sep|..] == b;
  }

  // ---------------------------------------------------------------- str(int)

  predicate IsDigit(c: char)
  {
    '0' <= c <= '9'
  }

  predicate AllDigits(s: string)
  {
    forall j :: 0 <= j < |s| ==> IsDigit(s[j])
  }

  /** Python's `str(n)` for a natural number. */
  function DecimalString(n: nat): (r: string)
    ensures |r| > 0 && AllDigits(r)
  {
    if n < 10 then ['0' + n as char]
    else DecimalString(n / 10) + ['0' + (n % 10) as char]
  }

  function DecimalValue(s: string): nat
    requires AllDigits(s)
  {
    if |s| == 0 then 0
    else 10 * DecimalValue(s[..|s| - 1]) + (s[|s| - 1] - '0') as nat
  }

  /** Reading back a formatted number gives the number. */
  lemma {:induction false} DecimalRoundTrip(n: nat)
    ensures DecimalValue(DecimalString(n)) == n
  {
    if n >= 10 {
      var s := DecimalString(n);
      assert s[..|s| - 1] == DecimalString(n / 10);
      DecimalRoundTrip(n / 10);
    }
  }

  // ---------------------------------------------------------------- str.encode('utf-8')

  type Byte = b: int | 0 <= b < 256

  /** The UTF-8 encoding of one code point (RFC 3629, section 3). */
  function EncodeChar(c: char): (r: seq<Byte>)
  {
    var cp := c as int;
    if cp < 0x80 then [cp]
    else if cp < 0x800 then [0xC0 + cp / 0x40, 0x80 + cp % 0x40]
    else if cp < 0x10000 then [0xE0 + cp / 0x1000, 0x80 + (cp / 0x40) % 0x40, 0x80 + cp % 0x40]
    else [0xF0 + cp / 0x40000, 0x80 + (cp / 0x1000) % 0x40, 0x80 + (cp / 0x40) % 0x40, 0x80 + cp % 0x40]
  }

  function Utf8(s: string): seq<Byte>
  {
    if |s| == 0 then [] else EncodeChar(s[0]) + Utf8(s[1..])
  }

  /** Every character takes one to four bytes, and ASCII text one byte each. */
  lemma {:induction false} Utf8Length(s: string)
    ensures |s| <= |Utf8(s)| <= 4 * |s|
    ensures (forall j :: 0 <= j < |s| ==> s[j] as int < 0x80) ==> |Utf8(s)| == |s|
  {
    if |s| > 0 {
      Utf8Length(s[1..]);
    }
  }

  // ---------------------------------------------------------------- re.sub(r'Content-Length: [0-9]+', ...)

  const CONTENT_LENGTH := "Content-Length: "

  /** The pattern 'Content-Length: [0-9]+' matches at index i of s. */
  predicate HeaderAt(s: string, i: nat)
  {
    OccursAt(s, CONTENT_LENGTH, i) && i + 16 < |s| && IsDigit(s[i + 16])
  }

  /** The length of the run of digits s starts with: what `[0-9]+` consumes. */
  function DigitRun(s: string): (n: nat)
    ensures n <= |s| && AllDigits(s[..n]) && (n < |s| ==> !IsDigit(s[n]))
  {
    if |s| == 0 || !IsDigit(s[0]) then 0
    else
      var n := 1 + DigitRun(s[1..]);
      assert s[..n] == [s[0]] + s[1..][..n - 1];
      n
  }

  /** `re.sub(r'Content-Length: [0-9]+', 'Content-Length: ' + value, h)`:
      each leftmost match, taken greedily, becomes the header with `value`. */
  function SetContentLength(h: string, value: string): string
    decreases |h|
  {
    if |h| == 0 then []
    else if HeaderAt(h, 0) then
      CONTENT_LENGTH + value + SetContentLength(h[16 + DigitRun(h[16..])..], value)
    else [h[0]] + SetContentLength(h[1..], value)
  }

  /** Without a Content-Length header the substitution changes nothing. */
  lemma {:induction false} SetContentLengthAbsent(h: string, value: string)
    requires forall i: nat :: !HeaderAt(h, i)
    ensures SetContentLength(h, value) == h
    decreases |h|
  {
    if |h| > 0 {
      forall i: nat
        ensures !HeaderAt(h[1..], i)
      {
        HeaderShift([h[0]], h[1..], i);
        assert [h[0]] + h[1..] == h;
      }
      SetContentLengthAbsent(h[1..], value);
    }
  }

  /** A match, or its absence, is unaffected by text in front. */
  lemma HeaderShift(a: string, b: string, j: nat)
    ensures HeaderAt(a + b, |a| + j) == HeaderAt(b, j)
    ensures forall sub :: OccursAt(a + b, sub, |a| + j) == OccursAt(b, sub, j)
  {
    forall sub
      ensures OccursAt(a + b, sub, |a| + j) == OccursAt(b, sub, j)
    {
      if j + |sub| <= |b| {
        assert (a + b)[|a| + j..|a| + j + |sub|] == b[j..j + |sub|];
      }
    }
    if j + 16 < |b| {
      assert (a + b)[|a| + j + 16] == b[j + 16];
    }
  }

  /** What SetContentLength produces first: nothing for nothing, the header's
      'C' for a match, the first character otherwise. */
  lemma SetContentLengthHead(h: string, value: string)
    ensures |SetContentLength(h, value)| == 0 <==> |h| == 0
    ensures |h| > 0 ==> SetContentLength(h, value)[0] == if HeaderAt(h, 0) then 'C' else h[0]
  {
  }

  /** A result prefix without a 'C' was copied from the input unchanged. */
  lemma {:induction false} CopiedPrefix(h: string, value: string, k: nat)
    requires k <= |SetContentLength(h, value)|
    requires forall j :: 0 <= j < k ==> SetContentLength(h, value)[j] != 'C'
    ensures k <= |h| && h[..k] == SetContentLength(h, value)[..k]
    decreases k
  {
    if k > 0 {
      var r := SetContentLength(h, value);
      SetContentLengthHead(h, value);
      assert !HeaderAt(h, 0);
      var r' := SetContentLength(h[1..], value);
      assert r == [h[0]] + r';
      forall j | 0 <= j < k - 1
        ensures r'[j] != 'C'
      {
        assert r'[j] == r[j + 1];
      }
      CopiedPrefix(h[1..], value, k - 1);
      assert h[..k] == [h[0]] + h[1..][..k - 1];
      assert r[..k] == [r[0]] + r'[..k - 1];
    }
  }

  /** A match in the output at a copied first character was a match in the input. */
  lemma HeaderAtCopy(h: string, value: string)
    requires |h| > 0 && HeaderAt([h[0]] + SetContentLength(h[1..], value), 0)
    ensures HeaderAt(h, 0)
  {
    var r' := SetContentLength(h[1..], value);
    NoCAfterHead([h[0]] + r', r');
    CopiedPrefix(h[1..], value, 16);
    HeaderFromCopy(h, [h[0]] + r', r');
  }

  /** The 16 characters after the head of a match hold no 'C'. */
  lemma NoCAfterHead(r: string, r': string)
    requires |r| > 0 && r == [r[0]] + r' && HeaderAt(r, 0)
    ensures 16 <= |r'| && forall j :: 0 <= j < 16 ==> r'[j] != 'C'
  {
    assert r[..16] == CONTENT_LENGTH;
    forall j | 0 <= j < 16
      ensures r'[j] != 'C'
    {
      assert r'[j] == r[j + 1];
      if j < 15 {
        assert r[j + 1] == CONTENT_LENGTH[j + 1];
      }
    }
  }

  /** A match behind the same first character and the same next 16 characters is a match. */
  lemma HeaderFromCopy(h: string, r: string, r': string)
    requires |h| > 16 && 16 <= |r'| && r == [h[0]] + r' && HeaderAt(r, 0)
    requires h[1..][..16] == r'[..16]
    ensures HeaderAt(h, 0)
  {
    assert h[..16] == r[..16] by {
      assert h[..16] == [h[0]] + h[1..][..15];
      assert r[..16] == [r[0]] + r'[..15];
    }
    assert h[16] == h[1..][15] == r'[15] == r[16];
  }

  /** A match starts with the header's 'C'. */
  lemma HeaderStartsWithC(r: string, i: nat)
    requires HeaderAt(r, i)
    ensures r[i] == 'C'
  {
    assert r[i..i + 16][0] == r[i];
  }

  /** An inserted header has a single 'C', at its head. */
  lemma NoCInside(value: string, rest: string, i: nat)
    requires AllDigits(value) && 0 < i < 16 + |value|
    ensures (CONTENT_LENGTH + value + rest)[i] != 'C'
  {
    var r := CONTENT_LENGTH + value + rest;
    if i < 16 {
      assert r[i] == CONTENT_LENGTH[i];
    } else {
      assert r[i] == value[i - 16];
    }
  }

  /** The header at i carries exactly `value`: those digits, then no further digit. */
  predicate Carries(r: string, value: string, i: nat)
  {
    OccursAt(r, value, i + 16) && (i + 16 + |value| == |r| || (i + 16 + |value| < |r| && !IsDigit(r[i + 16 + |value|])))
  }

  lemma CarriesShift(a: string, b: string, value: string, j: nat)
    ensures Carries(a + b, value, |a| + j) == Carries(b, value, j)
  {
    HeaderShift(a, b, j + 16);
    var k := j + 16 + |value|;
    if k < |b| {
      assert (a + b)[|a| + k] == b[k];
    }
  }

  /** A header the substitution writes carries its value. */
  lemma CarriesWritten(t: string, value: string)
    requires |value| > 0 && AllDigits(value)
    requires |t| > 0 ==> !IsDigit(t[0])
    ensures Carries(CONTENT_LENGTH + value + SetContentLength(t, value), value, 0)
  {
    var r' := SetContentLength(t, value);
    var r := CONTENT_LENGTH + value + r';
    assert r[16..16 + |value|] == value;
    SetContentLengthHead(t, value);
    if |r'| > 0 {
      assert r[16 + |value|] == r'[0];
    }
  }

  /** After the substitution with a digit string, every Content-Length header
      carries exactly that value: its digits are `value` and nothing more. */
  lemma {:induction false} EveryHeaderCarries(h: string, value: string, i: nat)
    requires |value| > 0 && AllDigits(value)
    requires HeaderAt(SetContentLength(h, value), i)
    ensures Carries(SetContentLength(h, value), value, i)
    decreases |h|, 1
  {
    if HeaderAt(h, 0) {
      CarriesAfterMatch(h, value, i);
    } else {
      CarriesAfterCopy(h, value, i);
    }
  }

  /** The case of a match at the head of h: the written header, or one further on. */
  lemma {:induction false} CarriesAfterMatch(h: string, value: string, i: nat)
    requires |value| > 0 && AllDigits(value) && HeaderAt(h, 0)
    requires HeaderAt(SetContentLength(h, value), i)
    ensures Carries(SetContentLength(h, value), value, i)
    decreases |h|, 0
  {
    var n := DigitRun(h[16..]);
    var t := h[16 + n..];
    SetContentLengthOnMatch(h, value);
    if i < 16 + |value| {
      if |t| > 0 {
        assert t[0] == h[16..][n];
      }
      WrittenHeaderCarries(SetContentLength(h, value), t, value, i);
    } else {
      var front := CONTENT_LENGTH + value;
      HeaderAfterFront(SetContentLength(h, value), front, SetContentLength(t, value), i);
      EveryHeaderCarries(t, value, i - |front|);
      CarriesAfterFront(SetContentLength(h, value), front, SetContentLength(t, value), value, i);
    }
  }

  /** A match past a fixed front is a match in what follows it. */
  lemma HeaderAfterFront(r: string, front: string, rest: string, i: nat)
    requires r == front + rest && |front| <= i && HeaderAt(r, i)
    ensures HeaderAt(rest, i - |front|)
  {
    HeaderShift(front, rest, i - |front|);
  }

  /** A header carrying its value past a fixed front carries it in the whole. */
  lemma CarriesAfterFront(r: string, front: string, rest: string, value: string, i: nat)
    requires r == front + rest && |front| <= i && Carries(rest, value, i - |front|)
    ensures Carries(r, value, i)
  {
    CarriesShift(front, rest, value, i - |front|);
  }

  /** A match inside a written header is the header itself, and it carries its value. */
  lemma WrittenHeaderCarries(r: string, t: string, value: string, i: nat)
    requires |value| > 0 && AllDigits(value) && (|t| > 0 ==> !IsDigit(t[0]))
    requires r == CONTENT_LENGTH + value + SetContentLength(t, value)
    requires HeaderAt(r, i) && i < 16 + |value|
    ensures i == 0 && Carries(r, value, i)
  {
    if i == 0 {
      CarriesWritten(t, value);
    } else {
      HeaderStartsWithC(r, i);
      NoCInside(value, SetContentLength(t, value), i);
      assert false;
    }
  }

  /** The case of a copied first character: a header further on. */
  lemma {:induction false} CarriesAfterCopy(h: string, value: string, i: nat)
    requires |value| > 0 && AllDigits(value) && |h| > 0 && !HeaderAt(h, 0)
    requires HeaderAt(SetContentLength(h, value), i)
    ensures Carries(SetContentLength(h, value), value, i)
    decreases |h|, 0
  {
    var r := SetContentLength(h, value);
    var r' := SetContentLength(h[1..], value);
    assert r == [h[0]] + r';
    if i == 0 {
      HeaderAtCopy(h, value);
      assert false;
    } else {
      HeaderShift([h[0]], r', i - 1);
      EveryHeaderCarries(h[1..], value, i - 1);
      CarriesShift([h[0]], r', value, i - 1);
    }
  }

  /** Every Content-Length header of h carries the decimal text of n, and reads back as n. */
  ghost predicate StatesLength(h: string, n: nat)
  {
    forall i: nat :: HeaderAt(h, i) ==>
      && Carries(h, DecimalString(n), i)
      && DecimalValue(h[i + 16..i + 16 + |DecimalString(n)|]) == n
  }

  /** After substituting a digit string, every header carries exactly it. */
  lemma HeadersCarry(h: string, value: string)
    requires |value| > 0 && AllDigits(value)
    ensures var r := SetContentLength(h, value);
      forall i: nat :: HeaderAt(r, i) ==> Carries(r, value, i) && r[i + 16..i + 16 + |value|] == value
  {
    var r := SetContentLength(h, value);
    forall i: nat | HeaderAt(r, i)
      ensures Carries(r, value, i) && r[i + 16..i + 16 + |value|] == value
    {
      EveryHeaderCarries(h, value, i);
    }
  }

  /** Substituting the decimal text of n makes every header state n. */
  lemma HeadersStateLength(h: string, n: nat)
    ensures StatesLength(SetContentLength(h, DecimalString(n)), n)
  {
    HeadersCarry(h, DecimalString(n));
    DecimalRoundTrip(n);
  }

  /** A run of digits followed by a non-digit is consumed exactly. */
  lemma {:induction false} DigitRunOf(ds: string, q: string)
    requires AllDigits(ds) && (|q| > 0 ==> !IsDigit(q[0]))
    ensures DigitRun(ds + q) == |ds|
    decreases |ds|
  {
    if |ds| == 0 {
      assert ds + q == q;
    } else {
      assert (ds + q)[0] == ds[0] && (ds + q)[1..] == ds[1..] + q;
      assert AllDigits(ds[1..]) by {
        forall j | 0 <= j < |ds[1..]|
          ensures IsDigit(ds[1..][j])
        {
          assert ds[1..][j] == ds[j + 1];
        }
      }
      DigitRunOf(ds[1..], q);
    }
  }

  /** A match at the start is replaced, with the digits it consumes. */
  lemma SetContentLengthOnMatch(h: string, value: string)
    requires HeaderAt(h, 0)
    ensures SetContentLength(h, value) == CONTENT_LENGTH + value + SetContentLength(h[16 + DigitRun(h[16..])..], value)
  {
  }

  /** A header at the very start of h is replaced with its whole run of digits. */
  lemma SetContentLengthAtHead(h: string, ds: string, q: string, value: string)
    requires |ds| > 0 && AllDigits(ds) && (|q| > 0 ==> !IsDigit(q[0]))
    requires h == CONTENT_LENGTH + ds + q
    ensures SetContentLength(h, value) == CONTENT_LENGTH + value + SetContentLength(q, value)
  {
    assert h[16..] == ds + q;
    assert HeaderAt(h, 0) by {
      assert h[..16] == CONTENT_LENGTH;
      assert h[16] == ds[0];
    }
    DigitRunOf(ds, q);
    assert h[16 + |ds|..] == q;
    SetContentLengthOnMatch(h, value);
  }

  /** Text before a match is copied one character at a time. */
  lemma SetContentLengthCopies(c: char, t: string, value: string)
    requires !HeaderAt([c] + t, 0)
    ensures SetContentLength([c] + t, value) == [c] + SetContentLength(t, value)
  {
    assert ([c] + t)[0] == c && ([c] + t)[1..] == t;
  }

  /**
    The leftmost Content-Length header of h, with its whole run of digits, is
    the one replaced: the text before it stays, the header keeps its place
    with only its digits changed, and the substitution goes on after it.
   */
  lemma {:induction false} SetContentLengthLeftmost(h: string, p: string, ds: string, q: string, value: string)
    requires |ds| > 0 && AllDigits(ds) && (|q| > 0 ==> !IsDigit(q[0]))
    requires h == p + CONTENT_LENGTH + ds + q
    requires forall i: nat :: i < |p| ==> !HeaderAt(h, i)
    ensures SetContentLength(h, value) == p + (CONTENT_LENGTH + value + SetContentLength(q, value))
    decreases |p|
  {
    if |p| == 0 {
      SetContentLengthAtHead(h, ds, q, value);
    } else {
      var t := p[1..] + CONTENT_LENGTH + ds + q;
      NoHeaderInTail(h, p, t, ds, q);
      SetContentLengthCopies(p[0], t, value);
      SetContentLengthLeftmost(t, p[1..], ds, q, value);
      ConsPrefix(p, CONTENT_LENGTH + value + SetContentLength(q, value));
    }
  }

  /** A non-empty prefix is its first character followed by the rest. */
  lemma ConsPrefix(p: string, rest: string)
    requires |p| > 0
    ensures p + rest == [p[0]] + (p[1..] + rest)
  {
  }

  /** Dropping the first character of the text before the header keeps it header-free. */
  lemma NoHeaderInTail(h: string, p: string, t: string, ds: string, q: string)
    requires |p| > 0 && h == p + CONTENT_LENGTH + ds + q && t == p[1..] + CONTENT_LENGTH + ds + q
    requires forall i: nat :: i < |p| ==> !HeaderAt(h, i)
    ensures h == [p[0]] + t && !HeaderAt([p[0]] + t, 0)
    ensures forall i: nat :: i < |p[1..]| ==> !HeaderAt(t, i)
  {
    assert h == [p[0]] + t;
    forall i: nat | i < |p[1..]|
      ensures !HeaderAt(t, i)
    {
      HeaderShift([p[0]], t, i);
    }
  }
}
