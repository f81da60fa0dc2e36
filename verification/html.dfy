/** `escapeHtml`, defined identically in main.js, tutorials.js and tutorial.js:
    a missing or empty value becomes "", then `&`, `<` and `>` are replaced, in
    that order, by their named entities. */
module Html {
  import opened Values
  import opened Text

  function EscapeHtml(s: Option<string>): string {
    ReplaceChar(ReplaceChar(ReplaceChar(Or(s, ""), '&', "&amp;"), '<', "&lt;"), '>', "&gt;")
  }

  /** How one character of the input appears in the output of a decoding stage:
      `lt`/`gt` tell whether `&lt;`/`&gt;` have already been decoded. With both
      false this is the escaping of a single character. */
  function Piece(c: char, lt: bool, gt: bool): string {
    if c == '&' then "&amp;"
    else if c == '<' then (if lt then "<" else "&lt;")
    else if c == '>' then (if gt then ">" else "&gt;")
    else [c]
  }

  function Pieces(s: string, lt: bool, gt: bool): string
    decreases |s|
  {
    if |s| == 0 then "" else Piece(s[0], lt, gt) + Pieces(s[1..], lt, gt)
  }

  /** Reading an escaped string back: `&lt;` and `&gt;` first, then `&amp;`. */
  function Unescape(s: string): string {
    ReplaceAll(ReplaceAll(ReplaceAll(s, "&lt;", "<"), "&gt;", ">"), "&amp;", "&")
  }

  lemma {:induction false} ReplaceCharAppend(a: string, b: string, c: char, rep: string)
    ensures ReplaceChar(a + b, c, rep) == ReplaceChar(a, c, rep) + ReplaceChar(b, c, rep)
    decreases |a|
  {
    if |a| > 0 {
      assert (a + b)[1..] == a[1..] + b;
      ReplaceCharAppend(a[1..], b, c, rep);
    } else {
      assert a + b == b;
    }
  }

  lemma ReplaceCharAbsent(a: string, c: char, rep: string)
    requires c !in a
    ensures ReplaceChar(a, c, rep) == a
  {
  }

  /** The three replacements of `escapeHtml`, on a present string. */
  function EscapeChain(s: string): string {
    ReplaceChar(ReplaceChar(ReplaceChar(s, '&', "&amp;"), '<', "&lt;"), '>', "&gt;")
  }

  /** The chain distributes over concatenation. */
  lemma {:induction false} EscapeChainAppend(a: string, b: string)
    ensures EscapeChain(a + b) == EscapeChain(a) + EscapeChain(b)
  {
    ReplaceCharAppend(a, b, '&', "&amp;");
    var a1 := ReplaceChar(a, '&', "&amp;");
    var b1 := ReplaceChar(b, '&', "&amp;");
    ReplaceCharAppend(a1, b1, '<', "&lt;");
    ReplaceCharAppend(ReplaceChar(a1, '<', "&lt;"), ReplaceChar(b1, '<', "&lt;"), '>', "&gt;");
  }

  lemma {:induction false} ReplaceCharSingle(d: char, c: char, rep: string)
    ensures ReplaceChar([d], c, rep) == if d == c then rep else [d]
  {
    assert [d][1..] == [];
  }

  /** On one character the chain yields that character's piece. */
  lemma {:induction false} EscapeChainChar(c: char)
    ensures EscapeChain([c]) == Piece(c, false, false)
  {
    ReplaceCharSingle(c, '&', "&amp;");
    if c == '&' {
      ReplaceCharAbsent("&amp;", '<', "&lt;");
      ReplaceCharAbsent("&amp;", '>', "&gt;");
    } else {
      ReplaceCharSingle(c, '<', "&lt;");
      if c == '<' {
        ReplaceCharAbsent("&lt;", '>', "&gt;");
      } else {
        ReplaceCharSingle(c, '>', "&gt;");
      }
    }
  }

  /** The three sequential global replacements act character by character. */
  lemma {:induction false} EscapeHtmlPerCharacter(s: string)
    ensures EscapeHtml(Some(s)) == Pieces(s, false, false)
    decreases |s|
  {
    assert Or(Some(s), "") == s;
    assert EscapeHtml(Some(s)) == EscapeChain(s);
    if |s| > 0 {
      assert s == [s[0]] + s[1..];
      EscapeChainAppend([s[0]], s[1..]);
      EscapeChainChar(s[0]);
      EscapeHtmlPerCharacter(s[1..]);
      assert EscapeHtml(Some(s[1..])) == EscapeChain(s[1..]);
    }
  }

  lemma {:induction false} PiecesHaveNoAngles(s: string)
    ensures forall i :: 0 <= i < |Pieces(s, false, false)| ==> Pieces(s, false, false)[i] !in "<>"
    decreases |s|
  {
    if |s| > 0 {
      PiecesHaveNoAngles(s[1..]);
    }
  }

  /** Escaped output never contains an angle bracket, a missing value reads as
      the empty string, and every character other than `&`, `<`, `>` is kept. */
  lemma EscapeHtmlContract(s: Option<string>)
    ensures forall i :: 0 <= i < |EscapeHtml(s)| ==> EscapeHtml(s)[i] != '<' && EscapeHtml(s)[i] != '>'
    ensures !Truthy(s) ==> EscapeHtml(s) == ""
    ensures EscapeHtml(s) == Pieces(Or(s, ""), false, false)
  {
    EscapeHtmlPerCharacter(Or(s, ""));
    PiecesHaveNoAngles(Or(s, ""));
    if !Truthy(s) {
      assert Or(s, "") == "";
    }
  }

  /** A prefix free of `&` passes through a `&…`-pattern replacement untouched. */
  lemma {:induction false} ReplaceAllSkipsPlain(u: string, x: string, pat: string, rep: string)
    requires |pat| > 0 && pat[0] == '&' && '&' !in u
    ensures ReplaceAll(u + x, pat, rep) == u + ReplaceAll(x, pat, rep)
    decreases |u|
  {
    if |u| > 0 {
      assert (u + x)[0] == u[0];
      assert !(pat <= u + x);
      assert (u + x)[1..] == u[1..] + x;
      ReplaceAllSkipsPlain(u[1..], x, pat, rep);
    } else {
      assert u + x == x;
    }
  }

  /** An entity that differs from the pattern at position `k` is copied unchanged. */
  lemma {:induction false} ReplaceAllSkipsEntity(p: string, x: string, pat: string, rep: string, k: nat)
    requires |pat| > 0 && pat[0] == '&' && |p| > 0 && '&' !in p[1..]
    requires k < |p| && k < |pat| && p[k] != pat[k]
    ensures ReplaceAll(p + x, pat, rep) == p + ReplaceAll(x, pat, rep)
  {
    var s := p + x;
    assert s[k] == p[k];
    assert !(pat <= s);
    assert ReplaceAll(s, pat, rep) == [s[0]] + ReplaceAll(s[1..], pat, rep);
    assert s[1..] == p[1..] + x;
    ReplaceAllSkipsPlain(p[1..], x, pat, rep);
    assert p == [s[0]] + p[1..];
  }

  lemma {:induction false} ReplaceAllMatch(x: string, pat: string, rep: string)
    requires |pat| > 0
    ensures ReplaceAll(pat + x, pat, rep) == rep + ReplaceAll(x, pat, rep)
  {
    assert (pat + x)[|pat|..] == x;
  }

  lemma {:induction false} DecodeLt(s: string)
    ensures ReplaceAll(Pieces(s, false, false), "&lt;", "<") == Pieces(s, true, false)
    decreases |s|
  {
    if |s| > 0 {
      var x := Pieces(s[1..], false, false);
      var c := s[0];
      if c == '&' {
        ReplaceAllSkipsEntity("&amp;", x, "&lt;", "<", 1);
      } else if c == '<' {
        ReplaceAllMatch(x, "&lt;", "<");
      } else if c == '>' {
        ReplaceAllSkipsEntity("&gt;", x, "&lt;", "<", 1);
      } else {
        ReplaceAllSkipsPlain([c], x, "&lt;", "<");
      }
      DecodeLt(s[1..]);
    }
  }

  lemma {:induction false} DecodeGt(s: string)
    ensures ReplaceAll(Pieces(s, true, false), "&gt;", ">") == Pieces(s, true, true)
    decreases |s|
  {
    if |s| > 0 {
      var x := Pieces(s[1..], true, false);
      var c := s[0];
      if c == '&' {
        ReplaceAllSkipsEntity("&amp;", x, "&gt;", ">", 1);
      } else if c == '>' {
        ReplaceAllMatch(x, "&gt;", ">");
      } else {
        ReplaceAllSkipsPlain(Piece(c, true, false), x, "&gt;", ">");
      }
      DecodeGt(s[1..]);
    }
  }

  lemma {:induction false} DecodeAmp(s: string)
    ensures ReplaceAll(Pieces(s, true, true), "&amp;", "&") == s
    decreases |s|
  {
    if |s| > 0 {
      var x := Pieces(s[1..], true, true);
      var c := s[0];
      if c == '&' {
        ReplaceAllMatch(x, "&amp;", "&");
      } else {
        ReplaceAllSkipsPlain(Piece(c, true, true), x, "&amp;", "&");
      }
      DecodeAmp(s[1..]);
      assert s == [c] + s[1..];
    }
  }

  /** Because `&` is escaped first, decoding `&lt;` and `&gt;` and then `&amp;`
      gives back the original text: no information is lost. */
  lemma EscapeRoundTrip(s: Option<string>)
    ensures Unescape(EscapeHtml(s)) == Or(s, "")
  {
    EscapeHtmlContract(s);
    DecodeLt(Or(s, ""));
    DecodeGt(Or(s, ""));
    DecodeAmp(Or(s, ""));
  }
}
