/**
 * The placeholder extractor: the global substitution of `/\$\{[^}]+\}|\$\S+/g` over the
 * body, where every match becomes `{}` and its text, without the sigil, is collected.
 * The pattern is given as the match it makes at a position (MatchAt), the substitution as
 * the left-to-right split of the body into pieces that the global search makes (Scan), and
 * the `replace` call, with its callback pushing onto the placeholders, as a method proved to
 * produce the template and the placeholders that Scan describes.
 */
module Extractor {
  import opened Text

  /** One step of the scan: a character copied as it is, or the whole text of one match. */
  datatype Piece = Literal(c: char) | Interp(text: string)

  // ---- The pattern ----

  /** `\$\{[^}]+\}` matches n characters at index i of s: `${`, a non-empty run free of `}`,
      then `}`. */
  ghost predicate IsBraceMatch(s: string, i: nat, n: int) {
    && 4 <= n && i + n <= |s|
    && s[i] == '$' && s[i + 1] == '{' && s[i + n - 1] == '}'
    && forall k :: i + 2 <= k < i + n - 1 ==> s[k] != '}'
  }

  /** `\$\S+` matches n characters at index i of s: `$`, then the longest non-empty run of
      non-white-space characters (greedy, and nothing follows it in the pattern). */
  ghost predicate IsBareMatch(s: string, i: nat, n: int) {
    && 2 <= n && i + n <= |s|
    && s[i] == '$'
    && (forall k :: i + 1 <= k < i + n ==> !IsWhiteSpace(s[k]))
    && (i + n == |s| || IsWhiteSpace(s[i + n]))
  }

  /** The whole pattern matches n characters at index i: the first alternative when it
      matches there, the second only when the first does not. */
  ghost predicate IsMatch(s: string, i: nat, n: int) {
    IsBraceMatch(s, i, n) || ((forall m :: !IsBraceMatch(s, i, m)) && IsBareMatch(s, i, n))
  }

  /** The length of the brace-form match at index i, 0 when there is none. */
  function BraceAt(s: string, i: nat): (n: nat)
    requires i <= |s|
    ensures n == 0 || (4 <= n && i + n <= |s|)
  {
    if i + 3 <= |s| && s[i] == '$' && s[i + 1] == '{' && s[i + 2] != '}' then
      var j := IndexFrom(s, '}', i + 3);
      if j < |s| then j + 1 - i else 0
    else 0
  }

  /** BraceAt finds the brace-form match, and it is the only one: `[^}]+` cannot stop
      before the first `}` after `${` and cannot pass it. */
  lemma BraceAtIsBraceMatch(s: string, i: nat)
    requires i <= |s|
    ensures BraceAt(s, i) == 0 || IsBraceMatch(s, i, BraceAt(s, i))
    ensures forall m :: IsBraceMatch(s, i, m) ==> BraceAt(s, i) == m
  {
    forall m | IsBraceMatch(s, i, m)
      ensures i + 3 <= |s| && s[i] == '$' && s[i + 1] == '{' && s[i + 2] != '}'
    {
      assert i + 2 < i + m - 1;
    }
    if i + 3 <= |s| && s[i] == '$' && s[i + 1] == '{' && s[i + 2] != '}' {
      var j := IndexFrom(s, '}', i + 3);
      IndexFromIsFirst(s, '}', i + 3);
      forall m | IsBraceMatch(s, i, m) ensures j == i + m - 1 {
        assert s[i + m - 1] == '}';
      }
    }
  }

  /** The length of the bare-form match at index i, 0 when there is none. */
  function BareAt(s: string, i: nat): (n: nat)
    requires i <= |s|
    ensures n == 0 || (2 <= n && i + n <= |s|)
  {
    if i + 2 <= |s| && s[i] == '$' && !IsWhiteSpace(s[i + 1]) then WhiteSpaceFrom(s, i + 2) - i
    else 0
  }

  /** BareAt finds the bare-form match, and it is the only one: the run ends at the first
      white space or at the end of the string. */
  lemma BareAtIsBareMatch(s: string, i: nat)
    requires i <= |s|
    ensures BareAt(s, i) == 0 || IsBareMatch(s, i, BareAt(s, i))
    ensures forall m :: IsBareMatch(s, i, m) ==> BareAt(s, i) == m
  {
    if i + 2 <= |s| && s[i] == '$' && !IsWhiteSpace(s[i + 1]) {
      var j := WhiteSpaceFrom(s, i + 2);
      WhiteSpaceFromEndsRun(s, i + 2);
      forall m | IsBareMatch(s, i, m) ensures j == i + m {
        assert i + m == |s| || IsWhiteSpace(s[i + m]);
      }
    }
  }

  /** The length of the match of the whole pattern at index i, 0 when there is none. */
  function MatchAt(s: string, i: nat): (n: nat)
    requires i <= |s|
    ensures n == 0 || (2 <= n && i + n <= |s|)
  {
    var b := BraceAt(s, i);
    if b > 0 then b else BareAt(s, i)
  }

  /** MatchAt is the pattern's match: when the pattern matches at i it returns the length of
      that match, which is then the only one, and it returns 0 exactly when it does not. */
  lemma MatchAtIsMatch(s: string, i: nat)
    requires i <= |s|
    ensures MatchAt(s, i) == 0 || IsMatch(s, i, MatchAt(s, i))
    ensures forall m :: IsMatch(s, i, m) ==> MatchAt(s, i) == m
  {
    BraceAtIsBraceMatch(s, i);
    BareAtIsBareMatch(s, i);
  }

  // ---- The substitution ----

  /** The length of the pattern's match at every index of s, from index k on. */
  function MatchTableFrom(s: string, k: nat): (t: seq<nat>)
    requires k <= |s|
    ensures |t| == |s| - k
    decreases |s| - k
  {
    if k == |s| then [] else [MatchAt(s, k)] + MatchTableFrom(s, k + 1)
  }

  /** The length of the pattern's match at every index of s. */
  function MatchTable(s: string): (t: seq<nat>)
    ensures |t| == |s|
  {
    MatchTableFrom(s, 0)
  }

  lemma {:induction false} MatchTableFromAt(s: string, k: nat, i: nat)
    requires k <= i < |s|
    ensures MatchTableFrom(s, k)[i - k] == MatchAt(s, i)
    decreases i - k
  {
    if k < i {
      MatchTableFromAt(s, k + 1, i);
      assert MatchTableFrom(s, k)[i - k] == MatchTableFrom(s, k + 1)[i - (k + 1)];
    }
  }

  /** The table holds, at index i, the match the pattern makes at index i. */
  lemma MatchTableAt(s: string, i: nat)
    requires i < |s|
    ensures MatchTable(s)[i] == MatchAt(s, i)
  {
    MatchTableFromAt(s, 0, i);
  }

  /** The global search over s, where t gives the length of the match at each index of s:
      a match is taken where there is one, and otherwise one character is copied and the
      search moves on by one. */
  function ScanWith(s: string, t: seq<nat>): seq<Piece>
    requires |t| == |s|
    decreases |s|
  {
    if s == [] then []
    else if 0 < t[0] <= |s| then [Interp(s[..t[0]])] + ScanWith(s[t[0]..], t[t[0]..])
    else [Literal(s[0])] + ScanWith(s[1..], t[1..])
  }

  /** The pieces the whole body is split into. */
  function Scan(s: string): seq<Piece>
  {
    ScanWith(s, MatchTable(s))
  }

  function PieceText(p: Piece): string
  {
    match p
    case Literal(c) => [c]
    case Interp(t) => t
  }

  function PieceTemplate(p: Piece): string
  {
    match p
    case Literal(c) => [c]
    case Interp(_) => "{}"
  }

  function PiecePlaceholders(p: Piece): seq<string>
  {
    match p
    case Literal(_) => []
    case Interp(t) => [Desigil(t)]
  }

  /** The text the pieces stand for. */
  function Unscan(ps: seq<Piece>): string
  {
    if ps == [] then [] else PieceText(ps[0]) + Unscan(ps[1..])
  }

  /** The substituted text: every match becomes the two characters `{}`. */
  function Template(ps: seq<Piece>): string
  {
    if ps == [] then [] else PieceTemplate(ps[0]) + Template(ps[1..])
  }

  /** The collected placeholders: one per match, in order, each without its sigil. */
  function Placeholders(ps: seq<Piece>): seq<string>
  {
    if ps == [] then [] else PiecePlaceholders(ps[0]) + Placeholders(ps[1..])
  }

  /** The callback's clean-up of one match: a text that starts with `${` and ends with `}`
      loses both, any other text that starts with `$` loses the `$`. It looks at the matched
      text only, not at which alternative matched. */
  function Desigil(m: string): string
  {
    if StartsWith(m, "${") && EndsWith(m, "}") then Slice(m, 2, -1)
    else if StartsWith(m, "$") then Slice(m, 1, |m|)
    else m
  }

  /** The pieces of a text with no sigil: one literal per character. */
  function Literals(s: string): seq<Piece>
  {
    if s == [] then [] else [Literal(s[0])] + Literals(s[1..])
  }

  /** `body.replace(pattern, callback)`: the search yields the matches and the text between
      them in order; the callback runs once per match, in order, pushing the match without its
      sigil onto the placeholders and putting `{}` in its place, and the text between the
      matches is copied. */
  method Extract(body: string) returns (template: string, placeholders: seq<string>)
    ensures template == Template(Scan(body))
    ensures placeholders == Placeholders(Scan(body))
  {
    var pieces := Scan(body);
    template, placeholders := [], [];
    var k := 0;
    while k < |pieces|
      invariant 0 <= k <= |pieces|
      invariant template == Template(pieces[..k])
      invariant placeholders == Placeholders(pieces[..k])
      decreases |pieces| - k
    {
      var p := pieces[k];
      assert pieces[..k + 1] == pieces[..k] + [p];
      AppendPiece(pieces[..k], p);
      match p {
        case Literal(c) =>
          template := template + [c];
        case Interp(m) =>
          template := template + "{}";
          placeholders := placeholders + [Desigil(m)];
      }
      k := k + 1;
    }
    assert pieces[..k] == pieces;
  }

  // ---- Building the result piece by piece ----

  /** Appending one piece appends its part of the template and of the placeholders. */
  lemma AppendPiece(done: seq<Piece>, p: Piece)
    ensures Template(done + [p]) == Template(done) + PieceTemplate(p)
    ensures Placeholders(done + [p]) == Placeholders(done) + PiecePlaceholders(p)
  {
    TemplateConcat(done, [p]);
    PlaceholdersConcat(done, [p]);
    assert [p][1..] == [];
  }

  // ---- The search looks only forward ----

  /** The pattern looks only forward: a prefix before the search position changes nothing. */
  lemma MatchAtShift(a: string, b: string, k: nat)
    requires k <= |b|
    ensures MatchAt(a + b, |a| + k) == MatchAt(b, k)
  {
    var s := a + b;
    forall j | |a| <= j < |s| ensures s[j] == b[j - |a|] { }
    if k + 3 <= |b| {
      IndexFromShift(a, b, '}', k + 3);
    }
    if k + 2 <= |b| {
      WhiteSpaceFromShift(a, b, k + 2);
    }
  }

  /** So the table of a + b, past a, is the table of b. */
  lemma MatchTableSuffix(a: string, b: string)
    ensures MatchTable(a + b)[|a|..] == MatchTable(b)
  {
    forall j | 0 <= j < |b| ensures MatchTable(a + b)[|a|..][j] == MatchTable(b)[j] {
      MatchTableAt(a + b, |a| + j);
      MatchTableAt(b, j);
      MatchAtShift(a, b, j);
    }
  }

  /** The first step of the search over a whole text: the match at index 0 becomes one piece,
      or the first character is copied, and the search goes on over the rest as if it stood
      alone. */
  lemma ScanHead(s: string)
    requires |s| > 0
    ensures MatchAt(s, 0) > 0 ==>
      Scan(s) == [Interp(s[..MatchAt(s, 0)])] + Scan(s[MatchAt(s, 0)..])
    ensures MatchAt(s, 0) == 0 ==> Scan(s) == [Literal(s[0])] + Scan(s[1..])
  {
    var n := MatchAt(s, 0);
    MatchTableAt(s, 0);
    var k := if n > 0 then n else 1;
    assert s[..k] + s[k..] == s;
    MatchTableSuffix(s[..k], s[k..]);
  }

  // ---- Properties of the substitution ----

  lemma {:induction false} UnscanConcat(a: seq<Piece>, b: seq<Piece>)
    ensures Unscan(a + b) == Unscan(a) + Unscan(b)
    decreases |a|
  {
    if a == [] {
      assert a + b == b;
    } else {
      assert (a + b)[0] == a[0] && (a + b)[1..] == a[1..] + b;
      UnscanConcat(a[1..], b);
    }
  }

  lemma {:induction false} TemplateConcat(a: seq<Piece>, b: seq<Piece>)
    ensures Template(a + b) == Template(a) + Template(b)
    decreases |a|
  {
    if a == [] {
      assert a + b == b;
    } else {
      assert (a + b)[0] == a[0] && (a + b)[1..] == a[1..] + b;
      TemplateConcat(a[1..], b);
    }
  }

  lemma {:induction false} PlaceholdersConcat(a: seq<Piece>, b: seq<Piece>)
    ensures Placeholders(a + b) == Placeholders(a) + Placeholders(b)
    decreases |a|
  {
    if a == [] {
      assert a + b == b;
    } else {
      assert (a + b)[0] == a[0] && (a + b)[1..] == a[1..] + b;
      PlaceholdersConcat(a[1..], b);
    }
  }

  /** The texts of the matches, in the order the search found them. */
  function Matches(ps: seq<Piece>): seq<string>
  {
    if ps == [] then []
    else (match ps[0] case Literal(_) => [] case Interp(t) => [t]) + Matches(ps[1..])
  }

  /** One placeholder per match, in the same order and with duplicates kept: the i-th
      placeholder is the i-th matched text without its sigil. */
  lemma {:induction false} PlaceholdersFollowMatches(ps: seq<Piece>)
    ensures |Placeholders(ps)| == |Matches(ps)|
    ensures forall i :: 0 <= i < |Matches(ps)| ==> Placeholders(ps)[i] == Desigil(Matches(ps)[i])
    decreases |ps|
  {
    if ps != [] {
      var rest := ps[1..];
      PlaceholdersFollowMatches(rest);
      var head := if ps[0].Interp? then [ps[0].text] else [];
      assert Matches(ps) == head + Matches(rest);
      assert Placeholders(ps) == (if ps[0].Interp? then [Desigil(ps[0].text)] else []) + Placeholders(rest);
    }
  }

  /** One piece spelling s[i..i + k], followed by pieces spelling the rest, spells s[i..]. */
  lemma UnscanStep(s: string, i: nat, k: nat, p: Piece, rest: seq<Piece>)
    requires i + k <= |s| && PieceText(p) == s[i..i + k] && Unscan(rest) == s[i + k..]
    ensures Unscan([p] + rest) == s[i..]
  {
    UnscanConcat([p], rest);
    assert Unscan([p]) == PieceText(p) by {
      assert [p][1..] == [];
    }
    assert s[i..i + k] + s[i + k..] == s[i..];
  }

  lemma {:induction false} ScanWithCovers(s: string, t: seq<nat>)
    requires |t| == |s|
    ensures Unscan(ScanWith(s, t)) == s
    decreases |s|
  {
    if s == [] {
    } else if 0 < t[0] <= |s| {
      ScanWithCovers(s[t[0]..], t[t[0]..]);
      UnscanStep(s, 0, t[0], Interp(s[..t[0]]), ScanWith(s[t[0]..], t[t[0]..]));
    } else {
      ScanWithCovers(s[1..], t[1..]);
      assert s[0..1] == [s[0]];
      UnscanStep(s, 0, 1, Literal(s[0]), ScanWith(s[1..], t[1..]));
    }
  }

  /** Nothing of the body is lost, added or reordered: the pieces spell the body out again. */
  lemma ScanCoversBody(s: string)
    ensures Unscan(Scan(s)) == s
  {
    ScanWithCovers(s, MatchTable(s));
  }

  /** Text with no sigil is copied character by character and yields no placeholder. */
  lemma {:induction false} LiteralsCopy(s: string)
    ensures Template(Literals(s)) == s && Placeholders(Literals(s)) == []
    decreases |s|
  {
    if s != [] {
      LiteralsCopy(s[1..]);
      assert [s[0]] + s[1..] == s;
    }
  }

  /** A prefix with no sigil is scanned as literals, and scanning then goes on with the rest
      as if it stood alone. */
  lemma {:induction false} ScanLiteralPrefix(pre: string, rest: string)
    requires '$' !in pre
    ensures Scan(pre + rest) == Literals(pre) + Scan(rest)
    decreases |pre|
  {
    var s := pre + rest;
    if pre == [] {
      assert s == rest;
    } else {
      assert s[0] == pre[0] && s[1..] == pre[1..] + rest;
      ScanHead(s);
      ScanLiteralPrefix(pre[1..], rest);
      ConcatAssoc([Literal(pre[0])], Literals(pre[1..]), Scan(rest));
    }
  }

  /** A body containing no `$` comes back unchanged, with no placeholders. */
  lemma NoSigilUnchanged(s: string)
    requires '$' !in s
    ensures Template(Scan(s)) == s && Placeholders(Scan(s)) == []
  {
    ScanLiteralPrefix(s, []);
    assert s + [] == s;
    LiteralsCopy(s);
    assert Literals(s) + [] == Literals(s);
  }

  /** Scanning a body that starts at a match: the match becomes one piece and scanning goes
      on with what follows it. */
  lemma ScanAtMatch(m: string, post: string)
    requires |m| > 0 && MatchAt(m + post, 0) == |m|
    ensures Scan(m + post) == [Interp(m)] + Scan(post)
  {
    var s := m + post;
    ScanHead(s);
    assert s[..|m|] == m && s[|m|..] == post;
  }

  /** What a scan after a sigil-free prefix gives, in terms of the rest. */
  lemma ExtractAfterPrefix(pre: string, rest: string)
    requires '$' !in pre
    ensures Template(Scan(pre + rest)) == pre + Template(Scan(rest))
    ensures Placeholders(Scan(pre + rest)) == Placeholders(Scan(rest))
  {
    ScanLiteralPrefix(pre, rest);
    LiteralsCopy(pre);
    TemplateConcat(Literals(pre), Scan(rest));
    PlaceholdersConcat(Literals(pre), Scan(rest));
  }

  /** The clean-up of a brace-form match gives what stood between the braces. */
  lemma DesigilBrace(x: string)
    ensures Desigil("${" + x + "}") == x
  {
    var m := "${" + x + "}";
    assert m[..2] == "${" && m[|m| - 1..] == "}";
    assert m[2..|m| - 1] == x;
  }

  /** The clean-up of a bare match gives what followed the sigil, unless that text itself
      starts with `{` and ends with `}`. */
  lemma DesigilBare(t: string)
    requires !(|t| >= 2 && t[0] == '{' && t[|t| - 1] == '}')
    ensures Desigil("$" + t) == t
  {
    var m := "$" + t;
    assert m[..1] == "$" && m[1..] == t;
    assert StartsWith(m, "${") ==> |t| >= 1 && t[0] == '{' by {
      if StartsWith(m, "${") { assert m[1] == '{'; }
    }
    assert EndsWith(m, "}") ==> |t| >= 1 && t[|t| - 1] == '}' by {
      if EndsWith(m, "}") { assert m[|m| - 1] == '}'; }
    }
  }

  /** A bare match that starts with `${` and ends with `}` loses both braces as well. */
  lemma DesigilBraceShapedBare(t: string)
    requires |t| >= 2 && t[0] == '{' && t[|t| - 1] == '}'
    ensures Desigil("$" + t) == t[1..|t| - 1]
  {
    var m := "$" + t;
    assert m[..2] == "${" && m[|m| - 1..] == "}";
    assert m[2..|m| - 1] == t[1..|t| - 1];
  }

  /** The brace form after a sigil-free prefix: `${X}` becomes `{}` and contributes X. */
  lemma ExtractBrace(pre: string, x: string, post: string)
    requires '$' !in pre && |x| > 0 && '}' !in x
    ensures Template(Scan(pre + "${" + x + "}" + post)) == pre + "{}" + Template(Scan(post))
    ensures Placeholders(Scan(pre + "${" + x + "}" + post)) == [x] + Placeholders(Scan(post))
  {
    var m := "${" + x + "}";
    var s := m + post;
    ConcatRegroup(pre, "${" + x, "}", post);
    ConcatRegroup(pre, "${", x, "}" + post);
    ConcatAssoc("${", x, "}" + post);
    ConcatAssoc("${" + x, "}", post);
    assert pre + "${" + x + "}" + post == pre + s;
    assert IsBraceMatch(s, 0, |m|) by {
      forall k | 2 <= k < |m| - 1 ensures s[k] != '}' {
        assert s[k] == x[k - 2];
      }
    }
    BraceAtIsBraceMatch(s, 0);
    ScanAtMatch(m, post);
    DesigilBrace(x);
    ExtractAfterPrefix(pre, s);
    TemplateConcat([Interp(m)], Scan(post));
    PlaceholdersConcat([Interp(m)], Scan(post));
    ConcatAssoc(pre, "{}", Template(Scan(post)));
  }

  /** The bare form after a sigil-free prefix: `$T`, with T non-empty, free of white space,
      not starting with `{`, and followed by white space or the end, becomes `{}` and
      contributes T. */
  lemma ExtractBare(pre: string, t: string, post: string)
    requires '$' !in pre && |t| > 0 && t[0] != '{'
    requires forall i :: 0 <= i < |t| ==> !IsWhiteSpace(t[i])
    requires post == [] || IsWhiteSpace(post[0])
    ensures Template(Scan(pre + "$" + t + post)) == pre + "{}" + Template(Scan(post))
    ensures Placeholders(Scan(pre + "$" + t + post)) == [t] + Placeholders(Scan(post))
  {
    var m := "$" + t;
    var s := m + post;
    ConcatRegroup(pre, "$", t, post);
    assert pre + "$" + t + post == pre + s;
    assert BraceAt(s, 0) == 0 by { assert s[1] == t[0]; }
    assert IsBareMatch(s, 0, |m|) by {
      forall k | 1 <= k < |m| ensures !IsWhiteSpace(s[k]) {
        assert s[k] == t[k - 1];
      }
      assert |m| < |s| ==> s[|m|] == post[0];
    }
    BareAtIsBareMatch(s, 0);
    ScanAtMatch(m, post);
    DesigilBare(t);
    ExtractAfterPrefix(pre, s);
    TemplateConcat([Interp(m)], Scan(post));
    PlaceholdersConcat([Interp(m)], Scan(post));
    ConcatAssoc(pre, "{}", Template(Scan(post)));
  }

  /** `${}` has no brace-form match, so the bare form takes it, and the clean-up still strips
      the braces: it becomes `{}` and contributes the empty placeholder. */
  lemma ExtractEmptyBraces(pre: string, post: string)
    requires '$' !in pre
    requires post == [] || IsWhiteSpace(post[0])
    ensures Template(Scan(pre + "${}" + post)) == pre + "{}" + Template(Scan(post))
    ensures Placeholders(Scan(pre + "${}" + post)) == [""] + Placeholders(Scan(post))
  {
    var m := "${}";
    var s := m + post;
    ConcatAssoc(pre, m, post);
    assert BraceAt(s, 0) == 0 by { assert s[2] == '}'; }
    assert IsBareMatch(s, 0, 3) by {
      assert s[1] == '{' && s[2] == '}';
      assert 3 < |s| ==> s[3] == post[0];
    }
    BareAtIsBareMatch(s, 0);
    ScanAtMatch(m, post);
    DesigilBraceShapedBare("{}");
    assert "$" + "{}" == m;
    ExtractAfterPrefix(pre, s);
    TemplateConcat([Interp(m)], Scan(post));
    PlaceholdersConcat([Interp(m)], Scan(post));
    ConcatAssoc(pre, "{}", Template(Scan(post)));
  }

  /** A `$` followed by white space or by the end of the body is no match: it stays in the
      template as it is and contributes nothing. */
  lemma ExtractLoneSigil(pre: string, post: string)
    requires '$' !in pre
    requires post == [] || IsWhiteSpace(post[0])
    ensures Template(Scan(pre + "$" + post)) == pre + "$" + Template(Scan(post))
    ensures Placeholders(Scan(pre + "$" + post)) == Placeholders(Scan(post))
  {
    var s := "$" + post;
    ConcatAssoc(pre, "$", post);
    assert MatchAt(s, 0) == 0 by {
      assert |s| >= 2 ==> s[1] == post[0];
    }
    assert Scan(s) == [Literal('$')] + Scan(post) by {
      ScanHead(s);
      assert s[1..] == post;
    }
    ExtractAfterPrefix(pre, s);
    TemplateConcat([Literal('$')], Scan(post));
    PlaceholdersConcat([Literal('$')], Scan(post));
    ConcatAssoc(pre, "$", Template(Scan(post)));
  }

  /** A brace-form placeholder ending the body. */
  lemma ExtractBraceAtEnd(pre: string, x: string)
    requires '$' !in pre && |x| > 0 && '}' !in x
    ensures Template(Scan(pre + "${" + x + "}")) == pre + "{}"
    ensures Placeholders(Scan(pre + "${" + x + "}")) == [x]
  {
    ExtractBrace(pre, x, "");
    NoSigilUnchanged("");
    assert pre + "${" + x + "}" + "" == pre + "${" + x + "}";
    assert pre + "{}" + "" == pre + "{}";
  }

  /** Two brace-form placeholders with plain text between them: both become `{}` and are
      collected in the order they appear, a repeated name once per occurrence. */
  lemma ExtractTwoBraces(x: string, mid: string, y: string)
    requires |x| > 0 && '}' !in x && |y| > 0 && '}' !in y && '$' !in mid
    ensures Template(Scan("${" + x + "}" + mid + "${" + y + "}")) == "{}" + mid + "{}"
    ensures Placeholders(Scan("${" + x + "}" + mid + "${" + y + "}")) == [x, y]
  {
    var first := "${" + x + "}";
    var second := mid + "${" + y + "}";
    assert "${" + x + "}" + mid + "${" + y + "}" == "" + "${" + x + "}" + second by {
      ConcatRegroup(first, mid, "${", y);
      ConcatAssoc(first, mid + "${" + y, "}");
    }
    ExtractBraceAtEnd(mid, y);
    ExtractBrace("", x, second);
    ConcatAssoc("{}", mid, "{}");
  }

}
