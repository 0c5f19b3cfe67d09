/** Python's `str.strip()` without arguments: removal of leading and trailing
    whitespace, where whitespace is what `str.isspace` accepts. */
module Text {

  /** The characters `str.isspace` accepts (Unicode White_Space plus the
      ASCII information separators U+001C..U+001F). */
  predicate IsWhitespace(c: char) {
    || ('\t' <= c <= '\r')
    || ('\U{1C}' <= c <= ' ')
    || c == '\U{85}' || c == '\U{A0}' || c == '\U{1680}'
    || ('\U{2000}' <= c <= '\U{200A}')
    || c == '\U{2028}' || c == '\U{2029}' || c == '\U{202F}'
    || c == '\U{205F}' || c == '\U{3000}'
  }

  /** Every character of `s` is whitespace (true of the empty string). */
  predicate AllWhitespace(s: string) {
    forall k :: 0 <= k < |s| ==> IsWhitespace(s[k])
  }

  /** Neither the first nor the last character of `s` is whitespace. */
  predicate IsStripped(s: string) {
    s == [] || (!IsWhitespace(s[0]) && !IsWhitespace(s[|s| - 1]))
  }

  /** The length of the whitespace run at the start of `s`. */
  function LeadingSpace(s: string): (n: nat)
    ensures n <= |s|
    ensures forall k :: 0 <= k < n ==> IsWhitespace(s[k])
    ensures n < |s| ==> !IsWhitespace(s[n])
  {
    if s != [] && IsWhitespace(s[0]) then 1 + LeadingSpace(s[1..]) else 0
  }

  /** The length of the whitespace run at the end of `s`. */
  function TrailingSpace(s: string): (n: nat)
    ensures n <= |s|
    ensures forall k :: |s| - n <= k < |s| ==> IsWhitespace(s[k])
    ensures n < |s| ==> !IsWhitespace(s[|s| - 1 - n])
  {
    if s != [] && IsWhitespace(s[|s| - 1]) then 1 + TrailingSpace(s[..|s| - 1]) else 0
  }

  /** `s.strip()`: the infix of `s` left after its leading and its trailing
      whitespace runs are removed. */
  function Strip(s: string): (r: string)
    ensures IsStripped(r)
    ensures r == [] <==> AllWhitespace(s)
    ensures IsStripped(s) ==> r == s
    ensures var a := LeadingSpace(s);
      && a + |r| <= |s| && r == s[a..a + |r|]
      && forall k :: a + |r| <= k < |s| ==> IsWhitespace(s[k])
  {
    var a := LeadingSpace(s);
    if a == |s| then [] else s[a..|s| - TrailingSpace(s)]
  }

  /** Stripping twice is stripping once. */
  lemma StripIdempotent(s: string)
    ensures Strip(Strip(s)) == Strip(s)
  {
  }

  /** `Strip` is characterised by its result: a non-empty stripped text
      surrounded by whitespace only strips to itself. */
  lemma StripUnique(x: string, r: string, y: string)
    requires AllWhitespace(x) && AllWhitespace(y) && r != [] && IsStripped(r)
    ensures Strip(x + r + y) == r
  {
    var s := x + r + y;
    assert s[|x|] == r[0];
    assert LeadingSpace(s) == |x|;
    assert s[|s| - 1 - |y|] == r[|r| - 1];
    assert TrailingSpace(s) == |y|;
    assert s[|x|..|s| - |y|] == r;
  }

  /** Whitespace added around a text does not change what it strips to. */
  lemma StripIgnoresPadding(p: string, s: string, q: string)
    requires AllWhitespace(p) && AllWhitespace(q)
    ensures Strip(p + s + q) == Strip(s)
  {
    if Strip(s) == [] {
      AppendWhitespace(p, s);
      AppendWhitespace(p + s, q);
    } else {
      var a := LeadingSpace(s);
      var x, y := s[..a], s[a + |Strip(s)|..];
      SplitAroundStrip(s);
      PadAround(p, x, Strip(s), y, q);
    }
  }

  lemma SplitAroundStrip(s: string)
    requires Strip(s) != []
    ensures var a := LeadingSpace(s);
      && s == s[..a] + Strip(s) + s[a + |Strip(s)|..]
      && AllWhitespace(s[..a]) && AllWhitespace(s[a + |Strip(s)|..])
  {
    var a := LeadingSpace(s);
    var r := Strip(s);
    assert s == s[..a] + s[a..a + |r|] + s[a + |r|..];
    assert AllWhitespace(s[..a]) by {
      forall k | 0 <= k < a ensures IsWhitespace(s[..a][k]) {
        assert s[..a][k] == s[k];
      }
    }
    var y := s[a + |r|..];
    forall k | 0 <= k < |y| ensures IsWhitespace(y[k]) {
      assert y[k] == s[a + |r| + k];
    }
  }

  lemma PadAround(p: string, x: string, r: string, y: string, q: string)
    requires AllWhitespace(p) && AllWhitespace(q)
    requires r != [] && IsStripped(r) && AllWhitespace(x) && AllWhitespace(y)
    ensures Strip(p + (x + r + y) + q) == r
  {
    assert p + (x + r + y) + q == (p + x) + r + (y + q);
    AppendWhitespace(p, x);
    AppendWhitespace(y, q);
    StripUnique(p + x, r, y + q);
  }

  lemma AppendWhitespace(u: string, v: string)
    requires AllWhitespace(u) && AllWhitespace(v)
    ensures AllWhitespace(u + v)
  {
    forall k | 0 <= k < |u + v| ensures IsWhitespace((u + v)[k]) {
      if k < |u| {
        assert (u + v)[k] == u[k];
      } else {
        assert (u + v)[k] == v[k - |u|];
      }
    }
  }
}
