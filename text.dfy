/**
 * The text operations the scripts apply to scraped strings: Python's
 * `str.strip()`, `str.lower()`, `re.sub(r'\s+', ' ', s)`, the substring
 * test `t in s`, and the decimal rendering of a page number in an
 * f-string.
 */
module Text {

  /**
   * Python's `str.isspace()`: the characters that `strip()` removes and
   * that `\s` matches in a str pattern.
   */
  predicate IsSpace(c: char) {
    var n := c as int;
    (0x09 <= n <= 0x0D) || (0x1C <= n <= 0x20) || n == 0x85 || n == 0xA0 || n == 0x1680
    || (0x2000 <= n <= 0x200A) || n == 0x2028 || n == 0x2029 || n == 0x202F
    || n == 0x205F || n == 0x3000
  }

  predicate AllSpace(s: string) {
    forall i :: 0 <= i < |s| ==> IsSpace(s[i])
  }

  /** `s.lstrip()`: the suffix of `s` left after its leading whitespace. */
  function TrimStart(s: string): (r: string)
    ensures |r| <= |s| && r == s[|s| - |r|..]
    ensures AllSpace(s[..|s| - |r|])
    ensures r == [] || !IsSpace(r[0])
  {
    if s != [] && IsSpace(s[0]) then TrimStart(s[1..]) else s
  }

  /** `s.rstrip()`: the prefix of `s` left before its trailing whitespace. */
  function TrimEnd(s: string): (r: string)
    ensures r <= s
    ensures AllSpace(s[|r|..])
    ensures r == [] || !IsSpace(r[|r| - 1])
  {
    if s != [] && IsSpace(s[|s| - 1]) then TrimEnd(s[..|s| - 1]) else s
  }

  /** `r` is `s` with a whitespace-only prefix of length `i` and a whitespace-only suffix removed. */
  predicate PaddedBy(s: string, r: string, i: int) {
    0 <= i <= |s| - |r| && s[i..i + |r|] == r && AllSpace(s[..i]) && AllSpace(s[i + |r|..])
  }

  /** A whitespace-only prefix of `s`, then a whitespace-only suffix of what is left, pad `r`. */
  lemma PaddedByParts(s: string, t: string, r: string)
    requires |t| <= |s| && t == s[|s| - |t|..] && AllSpace(s[..|s| - |t|])
    requires r <= t && AllSpace(t[|r|..])
    ensures PaddedBy(s, r, |s| - |t|)
  {
    var i := |s| - |t|;
    assert s[i..i + |r|] == r;
    assert s[i + |r|..] == t[|r|..];
  }

  /** Trimming the start and then the end leaves a block padded by whitespace only. */
  lemma TrimsPad(s: string)
    ensures PaddedBy(s, TrimEnd(TrimStart(s)), |s| - |TrimStart(s)|)
  {
    var t := TrimStart(s);
    assert |t| <= |s| && t == s[|s| - |t|..] && AllSpace(s[..|s| - |t|]);
    var r := TrimEnd(t);
    assert r <= t && AllSpace(t[|r|..]);
    PaddedByParts(s, t, r);
  }

  /**
   * `s.strip()`: the block of `s` between a whitespace-only prefix and a
   * whitespace-only suffix, beginning and ending with a non-space.
   */
  function Strip(s: string): (r: string)
    ensures r == [] || (!IsSpace(r[0]) && !IsSpace(r[|r| - 1]))
    ensures exists i :: PaddedBy(s, r, i)
  {
    TrimsPad(s);
    TrimEnd(TrimStart(s))
  }

  lemma StripIdempotent(s: string)
    ensures Strip(Strip(s)) == Strip(s)
  {
  }

  predicate IsUpper(c: char) {
    ('A' <= c <= 'Z') || ('\U{C0}' <= c <= '\U{DE}' && c != '\U{D7}')
  }

  function LowerChar(c: char): char {
    if IsUpper(c) then (c as int + 32) as char else c
  }

  /**
   * `s.lower()` for ASCII and Latin-1 letters (the accented capitals of
   * Portuguese titles): every capital becomes its small letter, which in
   * both ranges lies 32 code points above it, no capital remains, and
   * every other character, whitespace included, is kept.
   */
  function Lower(s: string): (r: string)
    ensures |r| == |s|
    ensures forall i :: 0 <= i < |s| && IsUpper(s[i]) ==> r[i] as int == s[i] as int + 32
    ensures forall i :: 0 <= i < |r| ==> !IsUpper(r[i])
    ensures forall i :: 0 <= i < |s| && !IsUpper(s[i]) ==> r[i] == s[i]
  {
    seq(|s|, i requires 0 <= i < |s| => LowerChar(s[i]))
  }

  /** Lower-casing works character by character, so it distributes over concatenation. */
  lemma LowerAppend(a: string, b: string)
    ensures Lower(a + b) == Lower(a) + Lower(b)
  {
    assert forall i :: 0 <= i < |a + b| ==> Lower(a + b)[i] == (Lower(a) + Lower(b))[i];
  }

  lemma LowerIdempotent(s: string)
    ensures Lower(Lower(s)) == Lower(s)
  {
  }

  /**
   * The substitution of `re.sub(r'\s+', ' ', s)` as a scan from left to
   * right, `inRun` telling whether the character before `s` was
   * whitespace: a visible character is copied, the first whitespace
   * character of a run is written as ' ', the others of the run are
   * dropped.
   */
  function CollapseFrom(s: string, inRun: bool): (r: string)
    ensures |r| <= |s|
  {
    if s == [] then []
    else if !IsSpace(s[0]) then [s[0]] + CollapseFrom(s[1..], false)
    else if inRun then CollapseFrom(s[1..], true)
    else [' '] + CollapseFrom(s[1..], true)
  }

  /**
   * `re.sub(r'\s+', ' ', s)`: every maximal run of whitespace becomes a
   * single ' ' (`CollapseForm`, `CollapseRun`, `CollapseWord`).  The
   * result is no longer than `s`, empty only when `s` is, and starts with
   * ' ' exactly when `s` starts with whitespace.
   */
  function Collapse(s: string): (r: string)
    ensures |r| <= |s|
    ensures r == [] <==> s == []
    ensures s != [] ==> r[0] == (if IsSpace(s[0]) then ' ' else s[0])
  {
    CollapseFrom(s, false)
  }

  /** The characters of `s` that are not whitespace, in order. */
  function NonSpace(s: string): string {
    if s == [] then []
    else (if IsSpace(s[0]) then [] else [s[0]]) + NonSpace(s[1..])
  }

  lemma {:induction false} CollapseFromKeepsText(s: string, inRun: bool)
    ensures NonSpace(CollapseFrom(s, inRun)) == NonSpace(s)
  {
    if s != [] {
      var r := CollapseFrom(s, inRun);
      CollapseFromKeepsText(s[1..], IsSpace(s[0]));
      if !IsSpace(s[0]) || !inRun {
        assert r[1..] == CollapseFrom(s[1..], IsSpace(s[0]));
      }
    }
  }

  /** Collapsing whitespace never adds, drops or reorders a visible character. */
  lemma CollapseKeepsText(s: string)
    ensures NonSpace(Collapse(s)) == NonSpace(s)
  {
    CollapseFromKeepsText(s, false);
  }

  /** The form `Collapse` produces: only ' ' as whitespace, never two whitespace characters in a row. */
  predicate IsCollapsed(s: string) {
    && (forall i :: 0 <= i < |s| && IsSpace(s[i]) ==> s[i] == ' ')
    && (forall i :: 0 <= i < |s| - 1 ==> !(IsSpace(s[i]) && IsSpace(s[i + 1])))
  }

  /** A character put in front of a collapsed text keeps it collapsed unless it adds a second space. */
  lemma ConsCollapsed(c: char, r: string)
    requires IsCollapsed(r)
    requires IsSpace(c) ==> c == ' ' && (r == [] || !IsSpace(r[0]))
    ensures IsCollapsed([c] + r)
  {
    var s := [c] + r;
    forall i | 0 <= i < |s| - 1
      ensures !(IsSpace(s[i]) && IsSpace(s[i + 1]))
    {
      if i > 0 {
        assert s[i] == r[i - 1] && s[i + 1] == r[i];
      }
    }
    forall i | 0 <= i < |s| && IsSpace(s[i])
      ensures s[i] == ' '
    {
      if i > 0 {
        assert s[i] == r[i - 1];
      }
    }
  }

  lemma {:induction false} CollapseFromForm(s: string, inRun: bool)
    ensures IsCollapsed(CollapseFrom(s, inRun))
    ensures inRun ==> CollapseFrom(s, inRun) == [] || !IsSpace(CollapseFrom(s, inRun)[0])
  {
    if s != [] {
      CollapseFromForm(s[1..], IsSpace(s[0]));
      if !IsSpace(s[0]) {
        ConsCollapsed(s[0], CollapseFrom(s[1..], false));
      } else if !inRun {
        ConsCollapsed(' ', CollapseFrom(s[1..], true));
      }
    }
  }

  /** In a collapsed text the only whitespace is ' ', and no two whitespace characters are adjacent. */
  lemma CollapseForm(s: string)
    ensures IsCollapsed(Collapse(s))
  {
    CollapseFromForm(s, false);
  }

  lemma {:induction false} CollapseFromFixed(s: string, inRun: bool)
    requires IsCollapsed(s)
    requires inRun ==> s == [] || !IsSpace(s[0])
    ensures CollapseFrom(s, inRun) == s
  {
    if s != [] {
      var tail := s[1..];
      assert IsCollapsed(tail) by {
        forall i | 0 <= i < |tail| - 1
          ensures !(IsSpace(tail[i]) && IsSpace(tail[i + 1]))
        {
          assert tail[i] == s[i + 1] && tail[i + 1] == s[i + 2];
        }
      }
      if IsSpace(s[0]) && tail != [] {
        assert tail[0] == s[1];
      }
      CollapseFromFixed(tail, IsSpace(s[0]));
      assert s == [s[0]] + tail;
    }
  }

  /** A string already in collapsed form is left unchanged. */
  lemma CollapseFixed(s: string)
    requires IsCollapsed(s)
    ensures Collapse(s) == s
  {
    CollapseFromFixed(s, false);
  }

  lemma CollapseIdempotent(s: string)
    ensures Collapse(Collapse(s)) == Collapse(s)
  {
    CollapseForm(s);
    CollapseFixed(Collapse(s));
  }

  /** A text without whitespace is left unchanged. */
  lemma CollapseWord(t: string)
    requires forall i :: 0 <= i < |t| ==> !IsSpace(t[i])
    ensures Collapse(t) == t
  {
    CollapseFixed(t);
  }

  lemma {:induction false} CollapseFromAppend(a: string, b: string, inRun: bool)
    requires a != [] && !IsSpace(a[|a| - 1])
    ensures CollapseFrom(a + b, inRun) == CollapseFrom(a, inRun) + CollapseFrom(b, false)
  {
    var ab := a + b;
    assert ab[0] == a[0];
    assert ab[1..] == a[1..] + b;
    if |a| == 1 {
      assert a[1..] == [];
      assert ab[1..] == b;
    } else {
      CollapseFromAppend(a[1..], b, IsSpace(a[0]));
    }
  }

  /** Collapsing a text that ends in a non-space, then what follows it, is collapsing the two in turn. */
  lemma CollapseAppend(a: string, b: string)
    requires a == [] || !IsSpace(a[|a| - 1])
    ensures Collapse(a + b) == Collapse(a) + Collapse(b)
  {
    if a == [] {
      assert a + b == b;
    } else {
      CollapseFromAppend(a, b, false);
    }
  }

  /** A whitespace run is written as one ' ' when it opens the scan, and not at all inside a run. */
  lemma {:induction false} CollapseFromSpaces(w: string, b: string, inRun: bool)
    requires AllSpace(w)
    requires b == [] || !IsSpace(b[0])
    ensures CollapseFrom(w + b, inRun) == (if w == [] || inRun then [] else [' ']) + CollapseFrom(b, false)
  {
    if w == [] {
      assert w + b == b;
    } else {
      var wb := w + b;
      assert wb[0] == w[0] && wb[1..] == w[1..] + b;
      CollapseFromSpaces(w[1..], b, true);
    }
  }

  /**
   * A whitespace run between a text that ends in a non-space (or is empty)
   * and one that starts with a non-space (or is empty) becomes exactly one
   * ' ' in place; the texts on either side are collapsed on their own.
   */
  lemma CollapseRun(a: string, w: string, b: string)
    requires w != [] && AllSpace(w)
    requires a == [] || !IsSpace(a[|a| - 1])
    requires b == [] || !IsSpace(b[0])
    ensures Collapse(a + w + b) == Collapse(a) + " " + Collapse(b)
  {
    assert a + w + b == a + (w + b);
    CollapseAppend(a, w + b);
    CollapseFromSpaces(w, b, false);
  }

  /**
   * BeautifulSoup's `get_text(strip=True)` over the text pieces of an
   * element, in document order: each piece stripped, the blank ones
   * dropped, the others joined with no separator.  The result begins and
   * ends with a non-space, and is empty exactly when every piece is blank.
   */
  function StrippedText(pieces: seq<string>): (r: string)
    ensures r == [] || (!IsSpace(r[0]) && !IsSpace(r[|r| - 1]))
    ensures r == [] <==> forall p :: p in pieces ==> Strip(p) == []
  {
    if pieces == [] then []
    else if Strip(pieces[0]) == [] then StrippedText(pieces[1..])
    else Strip(pieces[0]) + StrippedText(pieces[1..])
  }

  /** A text that begins and ends with a non-space is its own strip. */
  lemma StripFixed(s: string)
    requires s == [] || (!IsSpace(s[0]) && !IsSpace(s[|s| - 1]))
    ensures Strip(s) == s
  {
  }

  /** An element with one text piece gives that piece, stripped. */
  lemma StrippedTextSingle(s: string)
    ensures StrippedText([s]) == Strip(s)
  {
    assert [s][1..] == [];
  }

  /** The text of an element is already stripped. */
  lemma StrippedTextStripped(pieces: seq<string>)
    ensures Strip(StrippedText(pieces)) == StrippedText(pieces)
  {
    StripFixed(StrippedText(pieces));
  }

  /** Concatenation of strings regroups freely. */
  lemma ConcatAssociative(h: string, x: string, y: string)
    ensures h + (x + y) == (h + x) + y
  {
  }

  /** The text of a first piece followed by more: that piece stripped, then the rest. */
  lemma StrippedTextCons(p: string, rest: seq<string>)
    ensures StrippedText([p] + rest) == Strip(p) + StrippedText(rest)
  {
    var pieces := [p] + rest;
    assert pieces[0] == p && pieces[1..] == rest;
  }

  /** The text of consecutive pieces is the text of the first ones followed by that of the rest. */
  lemma {:induction false} StrippedTextAppend(a: seq<string>, b: seq<string>)
    ensures StrippedText(a + b) == StrippedText(a) + StrippedText(b)
  {
    if a == [] {
      assert a + b == b;
    } else {
      var head, tail := a[0], a[1..];
      assert a == [head] + tail;
      assert a + b == [head] + (tail + b);
      StrippedTextCons(head, tail);
      StrippedTextCons(head, tail + b);
      StrippedTextAppend(tail, b);
      ConcatAssociative(Strip(head), StrippedText(tail), StrippedText(b));
    }
  }

  /** Trailing whitespace after a text that ends in a non-space is all trimmed. */
  lemma {:induction false} TrimEndSpaces(a: string, w: string)
    requires AllSpace(w) && (a == [] || !IsSpace(a[|a| - 1]))
    ensures TrimEnd(a + w) == a
    decreases |w|
  {
    if w != [] {
      assert (a + w)[..|a + w| - 1] == a + w[..|w| - 1];
      TrimEndSpaces(a, w[..|w| - 1]);
    } else {
      assert a + w == a;
    }
  }

  /**
   * The whitespace at the edge of a piece does not survive the join: two
   * stripped words, the first followed by whitespace in its own piece, run
   * together with nothing between them.
   */
  lemma StrippedTextJoinsWords(a: string, w: string, b: string)
    requires a != [] && !IsSpace(a[0]) && !IsSpace(a[|a| - 1]) && AllSpace(w)
    requires b != [] && !IsSpace(b[0]) && !IsSpace(b[|b| - 1])
    ensures StrippedText([a + w, b]) == a + b
  {
    assert TrimStart(a + w) == a + w;
    TrimEndSpaces(a, w);
    StripFixed(b);
    assert [a + w, b][1..] == [b];
    StrippedTextSingle(b);
  }

  /** Python's `t in s` on str: scan `s` for a position where `t` begins. */
  predicate Contains(s: string, t: string)
    decreases |s|
  {
    t <= s || (s != [] && Contains(s[1..], t))
  }

  /** `t` occurs in `s` starting at index `i`. */
  predicate OccursAt(s: string, t: string, i: int) {
    0 <= i <= |s| - |t| && s[i..i + |t|] == t
  }

  /** The scan finds `t` exactly when `t` occurs in `s` as a contiguous block. */
  lemma {:induction false} ContainsIff(s: string, t: string)
    ensures Contains(s, t) <==> exists i :: OccursAt(s, t, i)
    decreases |s|
  {
    if s == [] {
      if t == [] {
        assert OccursAt(s, t, 0);
      }
    } else {
      ContainsIff(s[1..], t);
      if t <= s {
        assert OccursAt(s, t, 0);
      }
      if Contains(s[1..], t) {
        var i :| OccursAt(s[1..], t, i);
        assert s[i + 1..i + 1 + |t|] == s[1..][i..i + |t|];
        assert OccursAt(s, t, i + 1);
      }
      if exists i :: OccursAt(s, t, i) {
        var i :| OccursAt(s, t, i);
        if i > 0 {
          assert s[1..][i - 1..i - 1 + |t|] == s[i..i + |t|];
          assert OccursAt(s[1..], t, i - 1);
        } else {
          assert t <= s;
        }
      }
    }
  }

  /** A word found in a string is found in every string that extends it on either side. */
  /** `s` ends with `t`, as Python's `s.endswith(t)`. */
  predicate EndsWith(s: string, t: string) {
    |t| <= |s| && s[|s| - |t|..] == t
  }

  /** An occurrence that starts past a prefix is an occurrence in the rest. */
  lemma OccursAfterPrefix(d: string, w: string, t: string, i: int)
    requires OccursAt(d + w, t, i) && i >= |d|
    ensures Contains(w, t)
  {
    assert (d + w)[i..i + |t|] == w[i - |d|..i - |d| + |t|];
    assert OccursAt(w, t, i - |d|);
    ContainsIff(w, t);
  }

  lemma ContainsInContext(a: string, s: string, b: string, t: string)
    requires Contains(s, t)
    ensures Contains(a + s + b, t)
  {
    ContainsIff(s, t);
    ContainsIff(a + s + b, t);
    var i :| OccursAt(s, t, i);
    assert (a + s + b)[|a| + i..|a| + i + |t|] == s[i..i + |t|];
    assert OccursAt(a + s + b, t, |a| + i);
  }

  /** `any(w in s for w in words)`. */
  predicate ContainsAny(s: string, words: seq<string>) {
    exists w :: w in words && Contains(s, w)
  }

  function DigitChar(d: nat): (c: char)
    requires d < 10
  {
    ('0' as int + d) as char
  }

  predicate IsDigits(s: string) {
    forall i :: 0 <= i < |s| ==> '0' <= s[i] <= '9'
  }

  /** `str(n)` for a page number: decimal digits, no leading zero. */
  function NatToString(n: nat): (s: string)
    ensures s != [] && IsDigits(s)
    ensures s[0] == '0' ==> n == 0
    decreases n
  {
    if n < 10 then [DigitChar(n)] else NatToString(n / 10) + [DigitChar(n % 10)]
  }

  /** `int(s)` for a string of decimal digits. */
  function DigitsValue(s: string): nat
    requires IsDigits(s)
  {
    if s == [] then 0 else DigitsValue(s[..|s| - 1]) * 10 + (s[|s| - 1] as int - '0' as int)
  }

  /** `int(str(n)) == n`: the rendered page number reads back as itself. */
  lemma {:induction false} NatToStringRoundTrip(n: nat)
    ensures DigitsValue(NatToString(n)) == n
    decreases n
  {
    if n >= 10 {
      NatToStringRoundTrip(n / 10);
      var s := NatToString(n);
      assert s[..|s| - 1] == NatToString(n / 10);
    }
  }

  /** Distinct page numbers are rendered as distinct strings. */
  lemma NatToStringInjective(m: nat, n: nat)
    requires NatToString(m) == NatToString(n)
    ensures m == n
  {
    NatToStringRoundTrip(m);
    NatToStringRoundTrip(n);
  }
}
