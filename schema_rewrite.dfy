/** The datasource rewrite of scripts/update-prisma-config.mjs: the first
    `url = "..."` line of the schema text (the pattern `url\s*=\s*"[^"]*"`)
    is replaced by `url = "<database url>"`; text without such a line is
    written back unchanged. Reading and writing the files is left to the
    caller: the schema text and the configured url are parameters. */
module SchemaRewrite {
  import opened JsValues

  /** The first index at or after `p` that is not white space (as `\s`
      reads it), or the end of the text. */
  function SkipSpace(s: string, p: nat): (q: nat)
    requires p <= |s|
    ensures p <= q <= |s|
    ensures forall t :: p <= t < q ==> IsSpace(s[t])
    ensures q < |s| ==> !IsSpace(s[q])
    decreases |s| - p
  {
    if p < |s| && IsSpace(s[p]) then SkipSpace(s, p + 1) else p
  }

  /** The first index at or after `p` holding a double quote, or the end
      of the text. */
  function SkipNonQuote(s: string, p: nat): (q: nat)
    requires p <= |s|
    ensures p <= q <= |s|
    ensures forall t :: p <= t < q ==> s[t] != '"'
    ensures q < |s| ==> s[q] == '"'
    decreases |s| - p
  {
    if p < |s| && s[p] != '"' then SkipNonQuote(s, p + 1) else p
  }

  /** The end of the match of the pattern that starts at `i`, if one
      does. Each `\s*` and the `[^"]*` can only stop where the next
      literal is, so the match is found without backtracking. */
  function MatchAt(s: string, i: nat): (r: Option<nat>)
    requires i <= |s|
    ensures r.Some? ==> i < r.value <= |s|
  {
    if i + 3 <= |s| && s[i..i + 3] == "url" then
      var j := SkipSpace(s, i + 3);
      if j < |s| && s[j] == '=' then
        var k := SkipSpace(s, j + 1);
        if k < |s| && s[k] == '"' then
          var m := SkipNonQuote(s, k + 1);
          if m < |s| then Some(m + 1) else None
        else None
      else None
    else None
  }

  /** The pattern read position by position: `url` at `i`, white space up
      to the `=` at `j`, white space up to the opening quote at `k`, no
      quote up to the closing quote at `m`. */
  predicate LineAt(s: string, i: nat, j: nat, k: nat, m: nat) {
    && i + 3 <= j < k < m < |s|
    && s[i..i + 3] == "url"
    && (forall t :: i + 3 <= t < j ==> IsSpace(s[t]))
    && s[j] == '='
    && (forall t :: j + 1 <= t < k ==> IsSpace(s[t]))
    && s[k] == '"'
    && (forall t :: k + 1 <= t < m ==> s[t] != '"')
    && s[m] == '"'
  }

  /** The scanner finds exactly the matches the pattern describes. */
  lemma MatchAtSound(s: string, i: nat)
    requires i <= |s| && MatchAt(s, i).Some?
    ensures exists j, k, m :: LineAt(s, i, j, k, m) && MatchAt(s, i) == Some(m + 1)
  {
    var j := SkipSpace(s, i + 3);
    var k := SkipSpace(s, j + 1);
    var m := SkipNonQuote(s, k + 1);
    assert LineAt(s, i, j, k, m);
  }

  lemma MatchAtComplete(s: string, i: nat, j: nat, k: nat, m: nat)
    requires LineAt(s, i, j, k, m)
    ensures MatchAt(s, i) == Some(m + 1)
  {
    assert SkipSpace(s, i + 3) == j;
    assert SkipSpace(s, j + 1) == k;
    assert SkipNonQuote(s, k + 1) == m;
  }

  /** The leftmost match starting at or after `from`, as `(start, end)`. */
  function FirstMatch(s: string, from: nat): (r: Option<(nat, nat)>)
    requires from <= |s|
    ensures r.Some? ==> from <= r.value.0 <= |s| && MatchAt(s, r.value.0) == Some(r.value.1)
    ensures r.Some? ==> forall p :: from <= p < r.value.0 ==> MatchAt(s, p).None?
    ensures r.None? ==> forall p :: from <= p <= |s| ==> MatchAt(s, p).None?
    decreases |s| - from
  {
    match MatchAt(s, from)
    case Some(e) => Some((from, e))
    case None => if from == |s| then None else FirstMatch(s, from + 1)
  }

  /** `url = "<url>"`, the line that is written in. */
  function NewLine(url: string): string {
    "url = \"" + url + "\""
  }

  predicate QuoteFree(url: string) {
    forall t :: 0 <= t < |url| ==> url[t] != '"'
  }

  /** The rewrite, with the url inserted as it is. */
  function UpdateDatasourceUrl(content: string, url: string): (r: string)
    ensures FirstMatch(content, 0).None? ==> r == content
  {
    match FirstMatch(content, 0)
    case None => content
    case Some((i, e)) =>
      assert i < e by { MatchAtSound(content, i); }
      content[..i] + NewLine(url) + content[e..]
  }

  /** Text with no `url = "..."` line is left as it is; otherwise the text
      before the first such line and the text after it are kept, and the
      line becomes `url = "<url>"`. */
  lemma RewriteShape(content: string, url: string)
    ensures FirstMatch(content, 0).None? ==> UpdateDatasourceUrl(content, url) == content
    ensures FirstMatch(content, 0).Some? ==>
      var (i, e) := FirstMatch(content, 0).value;
      var r := UpdateDatasourceUrl(content, url);
      && i < e <= |content|
      && r[..i] == content[..i]
      && r[i..i + |NewLine(url)|] == NewLine(url)
      && r[i + |NewLine(url)|..] == content[e..]
  {
    if FirstMatch(content, 0).Some? {
      var (i, e) := FirstMatch(content, 0).value;
      MatchAtSound(content, i);
      var r := UpdateDatasourceUrl(content, url);
      assert r == content[..i] + NewLine(url) + content[e..];
    }
  }

  /** A written line with a quote-free url matches the pattern again,
      and exactly over its own length. */
  lemma NewLineMatches(r: string, i: nat, url: string)
    requires QuoteFree(url)
    requires i + |NewLine(url)| <= |r| && r[i..i + |NewLine(url)|] == NewLine(url)
    ensures MatchAt(r, i) == Some(i + |NewLine(url)|)
  {
    var line := NewLine(url);
    assert forall t :: 0 <= t < |line| ==> r[i + t] == line[t];
    assert r[i..i + 3] == line[..3];
    assert LineAt(r, i, i + 4, i + 6, i + 7 + |url|) by {
      forall t | i + 7 <= t < i + 7 + |url|
        ensures r[t] != '"'
      {
        assert r[t] == line[t - i] == url[t - i - 7];
      }
    }
    MatchAtComplete(r, i, i + 4, i + 6, i + 7 + |url|);
  }

  /** After the rewrite no match starts before the written line. */
  lemma NoEarlierMatch(c: string, r: string, i: nat, url: string)
    requires QuoteFree(url)
    requires FirstMatch(c, 0).Some? && FirstMatch(c, 0).value.0 == i
    requires i + |NewLine(url)| <= |r| && r[..i] == c[..i] && r[i..i + |NewLine(url)|] == NewLine(url)
    ensures forall p :: 0 <= p < i ==> MatchAt(r, p).None?
  {
    MatchAtSound(c, i);
    var jc: nat, kc: nat, mc: nat :| LineAt(c, i, jc, kc, mc);
    assert forall t :: 0 <= t < i ==> r[t] == c[t] by {
      forall t | 0 <= t < i ensures r[t] == c[t] {
        assert r[t] == r[..i][t] && c[t] == c[..i][t];
      }
    }
    assert r[i] == 'u' by { assert r[i] == r[i..i + |NewLine(url)|][0]; }
    forall p | 0 <= p < i
      ensures MatchAt(r, p).None?
    {
      NoMatchAt(c, r, i, jc, kc, mc, p);
    }
  }

  /** One start before the written line: a match there in the new text
      would have to run through the written `url = "` into its quote
      (every other place for the `u` clashes with the pattern), and then
      the same characters of the old line would have closed a match at
      the same start in the old text, before its first match. */
  lemma NoMatchAt(c: string, r: string, i: nat, jc: nat, kc: nat, mc: nat, p: nat)
    requires LineAt(c, i, jc, kc, mc) && p < i < |r|
    requires forall t :: 0 <= t < i ==> r[t] == c[t]
    requires r[i] == 'u'
    requires MatchAt(c, p).None?
    ensures MatchAt(r, p).None?
  {
    if MatchAt(r, p).Some? {
      MatchAtSound(r, p);
      var j: nat, k: nat, m: nat :| LineAt(r, p, j, k, m);
      UOutsideHead(r, p, j, k, m, i);
      if m < i {
        SameLine(c, r, p, j, k, m, i);
        MatchAtComplete(c, p, j, k, m);
      } else {
        LineThroughOld(c, r, i, jc, kc, mc, p, j, k, m);
        MatchAtComplete(c, p, j, k, kc);
      }
    }
  }

  /** A `u` after the start of a match lies inside its quoted part or
      after it: `url`, the white space, `=` and the quotes hold none. */
  lemma UOutsideHead(r: string, p: nat, j: nat, k: nat, m: nat, i: nat)
    requires LineAt(r, p, j, k, m) && p < i < |r| && r[i] == 'u'
    ensures k < i && i != m
  {
    assert r[p + 1] == r[p..p + 3][1] && r[p + 2] == r[p..p + 3][2];
    assert !IsSpace('u');
  }

  /** A match lying wholly before `i` is one in any text that agrees
      before `i`. */
  lemma SameLine(c: string, r: string, p: nat, j: nat, k: nat, m: nat, i: nat)
    requires LineAt(r, p, j, k, m) && m < i <= |c| && i <= |r|
    requires forall t :: 0 <= t < i ==> r[t] == c[t]
    ensures LineAt(c, p, j, k, m)
  {
    assert c[p..p + 3] == r[p..p + 3];
  }

  /** A match in the new text whose quoted part runs past `i`: the old
      text has a match at the same start, closed by the opening quote of
      its own line at `kc`. */
  lemma LineThroughOld(c: string, r: string, i: nat, jc: nat, kc: nat, mc: nat, p: nat, j: nat, k: nat, m: nat)
    requires LineAt(c, i, jc, kc, mc) && p < i < |r|
    requires forall t :: 0 <= t < i ==> r[t] == c[t]
    requires LineAt(r, p, j, k, m) && k < i < m
    ensures LineAt(c, p, j, k, kc)
  {
    assert c[p..p + 3] == r[p..p + 3];
    forall t | k + 1 <= t < kc
      ensures c[t] != '"'
    {
      if t < i {
        assert c[t] == r[t];
      } else if t < i + 3 {
        assert c[t] == c[i..i + 3][t - i];
      } else if t != jc {
        assert IsSpace(c[t]);
      }
    }
  }

  /** Rewriting again with a new url replaces the line written before and
      nothing else: the result is that of rewriting the original text with
      the new url, as long as the earlier url had no double quote. */
  lemma RewriteLastWins(content: string, first: string, second: string)
    requires QuoteFree(first)
    ensures UpdateDatasourceUrl(UpdateDatasourceUrl(content, first), second)
         == UpdateDatasourceUrl(content, second)
  {
    var r := UpdateDatasourceUrl(content, first);
    if FirstMatch(content, 0).Some? {
      var (i, e) := FirstMatch(content, 0).value;
      ShapeAt(content, first, i, e);
      RewriteAgain(content, r, i, e, first, second);
      RewriteAt(content, second, i, e);
    }
  }

  /** Rewriting the rewritten text replaces the written line. */
  lemma RewriteAgain(c: string, r: string, i: nat, e: nat, url: string, next: string)
    requires QuoteFree(url) && FirstMatch(c, 0) == Some((i, e))
    requires i + |NewLine(url)| <= |r| && r[..i] == c[..i] && r[i..i + |NewLine(url)|] == NewLine(url)
    ensures UpdateDatasourceUrl(r, next) == r[..i] + NewLine(next) + r[i + |NewLine(url)|..]
  {
    WrittenLineIsFirst(c, r, i, e, url);
    RewriteAt(r, next, i, i + |NewLine(url)|);
  }

  /** In the rewritten text the written line is the first match. */
  lemma WrittenLineIsFirst(c: string, r: string, i: nat, e: nat, url: string)
    requires QuoteFree(url) && FirstMatch(c, 0) == Some((i, e))
    requires i + |NewLine(url)| <= |r| && r[..i] == c[..i] && r[i..i + |NewLine(url)|] == NewLine(url)
    ensures FirstMatch(r, 0) == Some((i, i + |NewLine(url)|))
  {
    NewLineMatches(r, i, url);
    NoEarlierMatch(c, r, i, url);
    FirstMatchIs(r, i, i + |NewLine(url)|);
  }

  /** The three parts of a spliced text are found again by slicing. */
  lemma Splice(pre: string, line: string, post: string)
    ensures (pre + line + post)[..|pre|] == pre
    ensures (pre + line + post)[|pre|..|pre| + |line|] == line
    ensures (pre + line + post)[|pre| + |line|..] == post
  {
  }

  /** The rewrite when the first match is known, by parts. */
  lemma ShapeAt(s: string, url: string, i: nat, e: nat)
    requires FirstMatch(s, 0) == Some((i, e))
    ensures i < e <= |s| && i + |NewLine(url)| <= |UpdateDatasourceUrl(s, url)|
    ensures UpdateDatasourceUrl(s, url)[..i] == s[..i]
    ensures UpdateDatasourceUrl(s, url)[i..i + |NewLine(url)|] == NewLine(url)
    ensures UpdateDatasourceUrl(s, url)[i + |NewLine(url)|..] == s[e..]
  {
    RewriteAt(s, url, i, e);
    Splice(s[..i], NewLine(url), s[e..]);
  }

  /** The rewrite when the first match is known. */
  lemma RewriteAt(s: string, url: string, i: nat, e: nat)
    requires FirstMatch(s, 0) == Some((i, e))
    ensures i < e <= |s|
    ensures UpdateDatasourceUrl(s, url) == s[..i] + NewLine(url) + s[e..]
  {
    MatchAtSound(s, i);
  }

  /** Running the rewrite twice with the same quote-free url gives the
      result of running it once. */
  lemma RewriteIdempotent(content: string, url: string)
    requires QuoteFree(url)
    ensures UpdateDatasourceUrl(UpdateDatasourceUrl(content, url), url) == UpdateDatasourceUrl(content, url)
  {
    RewriteLastWins(content, url, url);
  }

  /** A match with none before it is the first match; this follows from
      the contract of `FirstMatch`. */
  lemma FirstMatchIs(s: string, i: nat, e: nat)
    requires i <= |s| && MatchAt(s, i) == Some(e)
    requires forall p :: 0 <= p < i ==> MatchAt(s, p).None?
    ensures FirstMatch(s, 0) == Some((i, e))
  {
  }

  // ---------------------------------------------------------------------
  // The rewrite as the script writes it: `String.prototype.replace` with a
  // string replacement expands `$$`, `$&`, `` $` `` and `$'` in it (the
  // pattern has no capture groups, so `$1` and the like stay literal).

  predicate DollarFree(t: string) {
    forall x :: 0 <= x < |t| ==> t[x] != '$'
  }

  /** The replacement template after `$` expansion, for a match `matched`
      with `before` preceding and `after` following it. Without a `$` the
      template is copied as it is. */
  function Expand(t: string, matched: string, before: string, after: string): (r: string)
    ensures DollarFree(t) ==> r == t
    decreases |t|
  {
    if |t| >= 2 && t[0] == '$' && t[1] == '$' then "$" + Expand(t[2..], matched, before, after)
    else if |t| >= 2 && t[0] == '$' && t[1] == '&' then matched + Expand(t[2..], matched, before, after)
    else if |t| >= 2 && t[0] == '$' && t[1] == '`' then before + Expand(t[2..], matched, before, after)
    else if |t| >= 2 && t[0] == '$' && t[1] == '\'' then after + Expand(t[2..], matched, before, after)
    else if t == [] then []
    else [t[0]] + Expand(t[1..], matched, before, after)
  }

  /** The rewrite as written, with the url going through the expansion. */
  function UpdateAsWritten(content: string, url: string): (r: string)
    ensures FirstMatch(content, 0).None? ==> r == content
    ensures FirstMatch(content, 0).Some? ==>
      var i := FirstMatch(content, 0).value.0;
      i <= |r| && r[..i] == content[..i]
  {
    match FirstMatch(content, 0)
    case None => content
    case Some((i, e)) =>
      assert i < e by { MatchAtSound(content, i); }
      content[..i] + Expand(NewLine(url), content[i..e], content[..i], content[e..]) + content[e..]
  }

  /** A url without `$` is written the same by both. */
  lemma AsWrittenAgreesWithoutDollar(content: string, url: string)
    requires forall x :: 0 <= x < |url| ==> url[x] != '$'
    ensures UpdateAsWritten(content, url) == UpdateDatasourceUrl(content, url)
  {
    if FirstMatch(content, 0).Some? {
      var (i, e) := FirstMatch(content, 0).value;
      MatchAtSound(content, i);
      var line := NewLine(url);
      assert forall x :: 0 <= x < |line| ==> line[x] != '$' by {
        forall x | 0 <= x < |line| ensures line[x] != '$' {
          if 7 <= x < 7 + |url| {
            assert line[x] == url[x - 7];
          }
        }
      }
    }
  }

  /** The written line is the first match of a text that is just that
      line. */
  lemma LineAloneMatches(url: string)
    requires QuoteFree(url)
    ensures FirstMatch(NewLine(url), 0) == Some((0 as nat, |NewLine(url)|))
  {
    var c := NewLine(url);
    assert c[0..|c|] == c;
    NewLineMatches(c, 0, url);
    FirstMatchIs(c, 0, |c|);
  }

  /** A `$`-free head of the template is copied as it is. */
  lemma {:induction false} ExpandLiteralHead(head: string, rest: string, matched: string, before: string, after: string)
    requires forall x :: 0 <= x < |head| ==> head[x] != '$'
    ensures Expand(head + rest, matched, before, after) == head + Expand(rest, matched, before, after)
    decreases |head|
  {
    if head == [] {
      assert head + rest == rest;
    } else {
      var t := head + rest;
      assert t[0] == head[0] && t[1..] == head[1..] + rest;
      ExpandCons(t, matched, before, after);
      ExpandLiteralHead(head[1..], rest, matched, before, after);
      HeadThenTail(head, Expand(rest, matched, before, after));
    }
  }

  lemma HeadThenTail(h: string, x: string)
    requires h != []
    ensures [h[0]] + (h[1..] + x) == h + x
  {
    assert h == [h[0]] + h[1..];
  }

  /** A first character other than `$` is copied. */
  lemma ExpandCons(t: string, matched: string, before: string, after: string)
    requires t != [] && t[0] != '$'
    ensures Expand(t, matched, before, after) == [t[0]] + Expand(t[1..], matched, before, after)
  {
  }

  /** `$$` in the template is written as one `$`. */
  lemma ExpandDollarPair(matched: string)
    ensures Expand(NewLine("a$$b"), matched, [], []) == NewLine("a$b")
  {
    var tail := "b\"";
    assert Expand(tail, matched, [], []) == tail;
    assert ("$$" + tail)[2..] == tail;
    assert Expand("$$" + tail, matched, [], []) == "$" + tail;
    ExpandLiteralHead("url = \"a", "$$" + tail, matched, [], []);
    assert NewLine("a$$b") == "url = \"a" + ("$$" + tail);
    assert NewLine("a$b") == "url = \"a" + ("$" + tail);
  }

  /** On a text that is one quote-free line, the script's rewrite is the
      expanded template, and the corrected rewrite is the new line. */
  lemma RewriteOfLine(x: string, url: string)
    requires QuoteFree(x)
    ensures UpdateAsWritten(NewLine(x), url) == Expand(NewLine(url), NewLine(x), [], [])
    ensures UpdateDatasourceUrl(NewLine(x), url) == NewLine(url)
  {
    var c := NewLine(x);
    LineAloneMatches(x);
    assert c[..0] == [] && c[|c|..] == [] && c[0..|c|] == c;
  }

  /** A password holding `$$` loses a dollar sign: the schema line
      `url = "x"` rewritten with `a$$b` becomes `url = "a$b"`, where the
      corrected rewrite writes `url = "a$$b"`. */
  lemma DollarPairCollapses()
    ensures UpdateAsWritten(NewLine("x"), "a$$b") == NewLine("a$b")
    ensures UpdateDatasourceUrl(NewLine("x"), "a$$b") == NewLine("a$$b")
    ensures NewLine("a$b") != NewLine("a$$b")
  {
    RewriteOfLine("x", "a$$b");
    ExpandDollarPair(NewLine("x"));
    assert |NewLine("a$b")| != |NewLine("a$$b")|;
  }
}
