/**
 * The angeloni.py scraper: for every product-name span, normalise its
 * text (`get_text(strip=True)`) (whitespace runs collapsed to one space, then
 * lower-cased) and print the description as found when it mentions
 * "americano" together with "vinho" or "whisky".  The printed lines are
 * the script's output.
 */
module Angeloni {
  import opened Common
  import opened Text

  /** The line printed when the page has no product-name span. */
  const NoneFoundMessage: string := "No product descriptions found."

  /** `re.sub(r'\s+', ' ', description).lower()`. */
  function Normalize(description: string): string {
    Lower(Collapse(description))
  }

  /** The test of the print, written as the script writes it. */
  predicate Accepts(description: string) {
    var normalized := Normalize(description);
    (Contains(normalized, "vinho") && Contains(normalized, "americano"))
    || (Contains(normalized, "whisky") && Contains(normalized, "americano"))
  }

  /**
   * The printed lines for the product-name spans, each given by its text
   * pieces, in document order: the message when there is no span, else
   * the text of every span (`get_text(strip=True)`) that passes the test.
   */
  function PrintedLines(spans: seq<seq<string>>): seq<string> {
    if spans == [] then [NoneFoundMessage] else Filter(Map(spans, StrippedText), Accepts)
  }

  lemma LowerKeepsSpaces(s: string)
    ensures forall i :: 0 <= i < |s| ==> (IsSpace(Lower(s)[i]) <==> IsSpace(s[i]))
    ensures forall i :: 0 <= i < |s| && IsSpace(s[i]) ==> Lower(s)[i] == s[i]
  {
    forall i | 0 <= i < |s|
      ensures IsSpace(Lower(s)[i]) <==> IsSpace(s[i])
    {
      if IsUpper(s[i]) {
        assert !IsSpace(s[i]);
        assert !IsSpace(LowerChar(s[i]));
      }
    }
  }

  /** Dropping the whitespace commutes with lower-casing. */
  lemma {:induction false} NonSpaceLower(s: string)
    ensures NonSpace(Lower(s)) == Lower(NonSpace(s))
  {
    if s != [] {
      var c, t := s[0], s[1..];
      assert s == [c] + t;
      LowerAppend([c], t);
      var lowered := Lower(s);
      assert lowered[0] == LowerChar(c) && lowered[1..] == Lower(t);
      if IsUpper(c) {
        assert !IsSpace(c) && !IsSpace(LowerChar(c));
      }
      NonSpaceLower(t);
      if IsSpace(c) {
        assert NonSpace(s) == NonSpace(t);
        assert NonSpace(lowered) == NonSpace(Lower(t));
      } else {
        assert NonSpace(s) == [c] + NonSpace(t);
        LowerAppend([c], NonSpace(t));
        assert Lower([c]) == [LowerChar(c)];
        assert NonSpace(lowered) == [LowerChar(c)] + NonSpace(Lower(t));
      }
    }
  }

  /**
   * The normalised text has single spaces as its only whitespace, no
   * capital letter, and the visible characters of the description, in
   * order, lower-cased.
   */
  lemma NormalizeForm(description: string)
    ensures IsCollapsed(Normalize(description))
    ensures forall i :: 0 <= i < |Normalize(description)| ==> !IsUpper(Normalize(description)[i])
    ensures NonSpace(Normalize(description)) == Lower(NonSpace(description))
  {
    var c := Collapse(description);
    CollapseForm(description);
    LowerKeepsSpaces(c);
    NonSpaceLower(c);
    CollapseKeepsText(description);
  }

  /** A word with no whitespace in it is only lower-cased. */
  lemma NormalizeWord(word: string)
    requires forall i :: 0 <= i < |word| ==> !IsSpace(word[i])
    ensures Normalize(word) == Lower(word)
  {
    CollapseWord(word);
  }

  /**
   * A whitespace run between two stretches of text (each empty or ending,
   * respectively starting, with a non-space) becomes exactly one ' ' in
   * that place, and the stretches on either side are normalised on their
   * own.
   */
  lemma NormalizeRun(a: string, w: string, b: string)
    requires w != [] && AllSpace(w)
    requires a == [] || !IsSpace(a[|a| - 1])
    requires b == [] || !IsSpace(b[0])
    ensures Normalize(a + w + b) == Normalize(a) + " " + Normalize(b)
  {
    CollapseRun(a, w, b);
    LowerAppend(Collapse(a) + " ", Collapse(b));
    LowerAppend(Collapse(a), " ");
    assert Lower(" ") == " " by {
      assert !IsUpper(' ');
    }
  }

  /** Normalising twice gives what normalising once gives. */
  lemma NormalizeIdempotent(description: string)
    ensures Normalize(Normalize(description)) == Normalize(description)
  {
    NormalizeForm(description);
    var n := Normalize(description);
    CollapseFixed(n);
    LowerIdempotent(n);
  }

  /** The test does not depend on letter case or on how whitespace runs are spaced. */
  lemma AcceptsNormalized(description: string)
    ensures Accepts(Normalize(description)) <==> Accepts(description)
  {
    NormalizeIdempotent(description);
  }

  /**
   * With no span only the message is printed.  Otherwise a line is
   * printed exactly when it is the text of some span (as found, not
   * normalised) and passes the test, and the lines keep the spans'
   * order.
   */
  lemma PrintedLinesSpec(spans: seq<seq<string>>)
    ensures spans == [] ==> PrintedLines(spans) == [NoneFoundMessage]
    ensures spans != [] ==>
              forall line :: line in PrintedLines(spans) <==> line in Map(spans, StrippedText) && Accepts(line)
    ensures spans != [] ==> IsSubsequence(PrintedLines(spans), Map(spans, StrippedText))
  {
    FilterKeepsExactly(Map(spans, StrippedText), Accepts);
  }
}
