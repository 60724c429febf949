/** The import-statement recogniser of repository/file.rs: the regular expression
    import\s*\{[^}]*\}\s*from\s*'(\.[^']+)';
    written out as a hand-made matcher. At a given start position the expression
    can match in at most one way, so the leftmost match is found by trying each
    start position in turn. */
module ImportLine {

  import opened Wrappers
  import opened Text

  /** First index at or after `i` that is not white space, or |s|. */
  function SkipWhitespace(s: string, i: nat): (r: nat)
    requires i <= |s|
    ensures i <= r <= |s|
    ensures r == |s| || !IsWhitespace(s[r])
    decreases |s| - i
  {
    if i < |s| && IsWhitespace(s[i]) then SkipWhitespace(s, i + 1) else i
  }

  /** Everything skipped is white space. */
  lemma {:induction false} SkipWhitespaceSkips(s: string, i: nat)
    requires i <= |s|
    ensures AllWhitespace(s[i..SkipWhitespace(s, i)])
    decreases |s| - i
  {
    if i < |s| && IsWhitespace(s[i]) {
      var r := SkipWhitespace(s, i + 1);
      SkipWhitespaceSkips(s, i + 1);
      assert s[i..r] == [s[i]] + s[i + 1..r];
    }
  }

  /** First index at or after `i` that holds `c`, or |s|. */
  function FindChar(s: string, i: nat, c: char): (r: nat)
    requires i <= |s|
    ensures i <= r <= |s|
    ensures r == |s| || s[r] == c
    decreases |s| - i
  {
    if i < |s| && s[i] != c then FindChar(s, i + 1, c) else i
  }

  /** Nothing skipped is `c`. */
  lemma {:induction false} FindCharSkips(s: string, i: nat, c: char)
    requires i <= |s|
    ensures c !in s[i..FindChar(s, i, c)]
    decreases |s| - i
  {
    if i < |s| && s[i] != c {
      var r := FindChar(s, i + 1, c);
      FindCharSkips(s, i + 1, c);
      assert s[i..r] == [s[i]] + s[i + 1..r];
    }
  }

  /** The text the expression matches, given what each variable part matched,
      built from the right so that each stage of the matcher owns one tail. */
  function Pattern(ws1: string, body: string, ws2: string, ws3: string, capture: string): string
  {
    "import" + AfterKeywordText(ws1, body, ws2, ws3, capture)
  }

  function AfterKeywordText(ws1: string, body: string, ws2: string, ws3: string, capture: string): string
  {
    ws1 + ("{" + InBracesText(body, ws2, ws3, capture))
  }

  function InBracesText(body: string, ws2: string, ws3: string, capture: string): string
  {
    body + ("}" + AfterBracesText(ws2, ws3, capture))
  }

  function AfterBracesText(ws2: string, ws3: string, capture: string): string
  {
    ws2 + ("from" + AfterFromText(ws3, capture))
  }

  function AfterFromText(ws3: string, capture: string): string
  {
    ws3 + ("'" + QuotedPathText(capture))
  }

  function QuotedPathText(capture: string): string
  {
    capture + "';"
  }

  /** What the capture group `(\.[^']+)` can hold. */
  predicate IsCapture(capture: string)
  {
    |capture| >= 2 && capture[0] == '.' && '\'' !in capture
  }

  /** Declarative meaning of the expression: it matches at `i` with this capture. */
  ghost predicate MatchesAt(line: string, i: nat, capture: string)
  {
    exists ws1, body, ws2, ws3 ::
      && AllWhitespace(ws1) && '}' !in body && AllWhitespace(ws2) && AllWhitespace(ws3)
      && IsCapture(capture)
      && OccursAt(line, Pattern(ws1, body, ws2, ws3, capture), i)
  }

  /** The matcher at one start position: `import`, then one function per stage. */
  function MatchAt(line: string, i: nat): Option<string>
    requires i <= |line|
  {
    if OccursAt(line, "import", i) then AfterKeyword(line, i + 6) else None
  }

  /** `\s*\{` */
  function AfterKeyword(line: string, a: nat): Option<string>
    requires a <= |line|
  {
    var j := SkipWhitespace(line, a);
    if j < |line| && line[j] == '{' then InBraces(line, j + 1) else None
  }

  /** `[^}]*\}` */
  function InBraces(line: string, a: nat): Option<string>
    requires a <= |line|
  {
    var k := FindChar(line, a, '}');
    if k < |line| then AfterBraces(line, k + 1) else None
  }

  /** `\s*from` */
  function AfterBraces(line: string, a: nat): Option<string>
    requires a <= |line|
  {
    var l := SkipWhitespace(line, a);
    if OccursAt(line, "from", l) then AfterFrom(line, l + 4) else None
  }

  /** `\s*'` */
  function AfterFrom(line: string, a: nat): Option<string>
    requires a <= |line|
  {
    var m := SkipWhitespace(line, a);
    if m < |line| && line[m] == '\'' then QuotedPath(line, m + 1) else None
  }

  /** `(\.[^']+)';` */
  function QuotedPath(line: string, a: nat): (r: Option<string>)
    requires a <= |line|
    ensures r.Some? ==> IsCapture(r.value)
  {
    if a < |line| && line[a] == '.' then
      var q := FindChar(line, a + 1, '\'');
      if a + 1 < q && q + 1 < |line| && line[q + 1] == ';' then
        FindCharSkips(line, a + 1, '\'');
        assert line[a..q] == [line[a]] + line[a + 1..q];
        Some(line[a..q])
      else None
    else None
  }

  /** Leftmost match at or after `i` (Regex::captures searches from the left). */
  function FindMatch(line: string, i: nat): Option<string>
    requires i <= |line|
    decreases |line| - i
  {
    match MatchAt(line, i)
    case Some(c) => Some(c)
    case None => if i == |line| then None else FindMatch(line, i + 1)
  }

  /** The path literal captured from one line, if the line holds an import statement. */
  function Capture(line: string): (r: Option<string>)
    ensures r.Some? ==> IsCapture(r.value)
  {
    FindMatchCaptures(line, 0);
    FindMatch(line, 0)
  }

  lemma {:induction false} FindMatchCaptures(line: string, i: nat)
    requires i <= |line|
    ensures FindMatch(line, i).Some? ==> IsCapture(FindMatch(line, i).value)
    decreases |line| - i
  {
    if MatchAt(line, i).Some? {
      MatchAtSound(line, i);
    } else if i < |line| {
      FindMatchCaptures(line, i + 1);
    }
  }

  /** Where the parts of a match lie, stage by stage: each stage's piece runs from
      its start position to the next one named, and each separator sits where
      the expression puts it. `QuotedPathAt(line, a, q)`: the capture is
      line[a..q] and `';` follows it. */
  ghost predicate QuotedPathAt(line: string, a: nat, q: nat)
  {
    a <= q && q + 2 <= |line| && IsCapture(line[a..q]) && line[q] == '\'' && line[q + 1] == ';'
  }

  /** White space up to `m`, the quote at `m`, then the quoted path. */
  ghost predicate AfterFromAt(line: string, a: nat, m: nat, q: nat)
  {
    a <= m < |line| && AllWhitespace(line[a..m]) && line[m] == '\'' && QuotedPathAt(line, m + 1, q)
  }

  /** White space up to `l`, `from` at `l`, then the rest. */
  ghost predicate AfterBracesAt(line: string, a: nat, l: nat, m: nat, q: nat)
  {
    a <= l && l + 4 <= |line| && AllWhitespace(line[a..l]) && OccursAt(line, "from", l)
    && AfterFromAt(line, l + 4, m, q)
  }

  /** No closing brace up to `k`, the closing brace at `k`, then the rest. */
  ghost predicate InBracesAt(line: string, a: nat, k: nat, l: nat, m: nat, q: nat)
  {
    a <= k < |line| && '}' !in line[a..k] && line[k] == '}' && AfterBracesAt(line, k + 1, l, m, q)
  }

  /** White space up to `j`, the opening brace at `j`, then the rest. */
  ghost predicate AfterKeywordAt(line: string, a: nat, j: nat, k: nat, l: nat, m: nat, q: nat)
  {
    a <= j < |line| && AllWhitespace(line[a..j]) && line[j] == '{' && InBracesAt(line, j + 1, k, l, m, q)
  }

  /** `import` at `i`, then the rest. */
  ghost predicate MatchLayout(line: string, i: nat, j: nat, k: nat, l: nat, m: nat, q: nat)
  {
    OccursAt(line, "import", i) && AfterKeywordAt(line, i + 6, j, k, l, m, q)
  }

  /** The white-space scan stops at the first other character. */
  lemma {:induction false} SkipWhitespaceTo(s: string, a: nat, b: nat)
    requires a <= b < |s| && AllWhitespace(s[a..b]) && !IsWhitespace(s[b])
    ensures SkipWhitespace(s, a) == b
    decreases b - a
  {
    if a < b {
      assert s[a] == s[a..b][0];
      assert s[a + 1..b] == s[a..b][1..];
      SkipWhitespaceTo(s, a + 1, b);
    }
  }

  /** The character scan stops at the first occurrence. */
  lemma {:induction false} FindCharTo(s: string, a: nat, b: nat, c: char)
    requires a <= b < |s| && c !in s[a..b] && s[b] == c
    ensures FindChar(s, a, c) == b
    decreases b - a
  {
    if a < b {
      assert s[a] == s[a..b][0];
      assert s[a + 1..b] == s[a..b][1..];
      FindCharTo(s, a + 1, b, c);
    }
  }

  /** Stage by stage, the matcher finds what the layout puts there. */
  lemma QuotedPathFinds(line: string, a: nat, q: nat)
    requires QuotedPathAt(line, a, q)
    ensures QuotedPath(line, a) == Some(line[a..q])
  {
    var cap := line[a..q];
    assert line[a] == cap[0];
    assert line[a + 1..q] == cap[1..];
    FindCharTo(line, a + 1, q, '\'');
  }

  lemma AfterFromFinds(line: string, a: nat, m: nat, q: nat)
    requires AfterFromAt(line, a, m, q)
    ensures AfterFrom(line, a) == Some(line[m + 1..q])
  {
    SkipWhitespaceTo(line, a, m);
    QuotedPathFinds(line, m + 1, q);
    AfterFromStep(line, a, m);
  }

  lemma AfterBracesFinds(line: string, a: nat, l: nat, m: nat, q: nat)
    requires AfterBracesAt(line, a, l, m, q)
    ensures AfterBraces(line, a) == Some(line[m + 1..q])
  {
    assert line[l] == line[l..l + 4][0];
    SkipWhitespaceTo(line, a, l);
    AfterFromFinds(line, l + 4, m, q);
    AfterBracesStep(line, a, l);
  }

  lemma InBracesFinds(line: string, a: nat, k: nat, l: nat, m: nat, q: nat)
    requires InBracesAt(line, a, k, l, m, q)
    ensures InBraces(line, a) == Some(line[m + 1..q])
  {
    FindCharTo(line, a, k, '}');
    AfterBracesFinds(line, k + 1, l, m, q);
    InBracesStep(line, a, k);
  }

  /** One stage passes the line on to the next once its scan is known to stop at
      the right separator. */
  lemma MatchAtStep(line: string, i: nat)
    requires OccursAt(line, "import", i)
    ensures MatchAt(line, i) == AfterKeyword(line, i + 6)
  {
  }

  lemma AfterKeywordStep(line: string, a: nat, j: nat)
    requires a <= j < |line| && SkipWhitespace(line, a) == j && line[j] == '{'
    ensures AfterKeyword(line, a) == InBraces(line, j + 1)
  {
  }

  lemma InBracesStep(line: string, a: nat, k: nat)
    requires a <= k < |line| && FindChar(line, a, '}') == k
    ensures InBraces(line, a) == AfterBraces(line, k + 1)
  {
  }

  lemma AfterBracesStep(line: string, a: nat, l: nat)
    requires a <= |line| && SkipWhitespace(line, a) == l && OccursAt(line, "from", l)
    ensures AfterBraces(line, a) == AfterFrom(line, l + 4)
  {
  }

  lemma AfterFromStep(line: string, a: nat, m: nat)
    requires a <= m < |line| && SkipWhitespace(line, a) == m && line[m] == '\''
    ensures AfterFrom(line, a) == QuotedPath(line, m + 1)
  {
  }

  lemma AfterKeywordFinds(line: string, a: nat, j: nat, k: nat, l: nat, m: nat, q: nat)
    requires AfterKeywordAt(line, a, j, k, l, m, q)
    ensures AfterKeyword(line, a) == Some(line[m + 1..q])
  {
    SkipWhitespaceTo(line, a, j);
    InBracesFinds(line, j + 1, k, l, m, q);
    AfterKeywordStep(line, a, j);
  }

  lemma MatchAtFinds(line: string, i: nat, j: nat, k: nat, l: nat, m: nat, q: nat)
    requires MatchLayout(line, i, j, k, l, m, q)
    ensures MatchAt(line, i) == Some(line[m + 1..q])
  {
    AfterKeywordFinds(line, i + 6, j, k, l, m, q);
    MatchAtStep(line, i);
  }

  /** Stage by stage, whatever the matcher returns comes with its layout. */
  lemma QuotedPathLayout(line: string, a: nat) returns (q: nat)
    requires a <= |line| && QuotedPath(line, a).Some?
    ensures QuotedPathAt(line, a, q) && QuotedPath(line, a).value == line[a..q]
  {
    q := FindChar(line, a + 1, '\'');
  }

  lemma AfterFromLayout(line: string, a: nat) returns (m: nat, q: nat)
    requires a <= |line| && AfterFrom(line, a).Some?
    ensures AfterFromAt(line, a, m, q) && AfterFrom(line, a).value == line[m + 1..q]
  {
    m := SkipWhitespace(line, a);
    SkipWhitespaceSkips(line, a);
    q := QuotedPathLayout(line, m + 1);
  }

  lemma AfterBracesLayout(line: string, a: nat) returns (l: nat, m: nat, q: nat)
    requires a <= |line| && AfterBraces(line, a).Some?
    ensures AfterBracesAt(line, a, l, m, q) && AfterBraces(line, a).value == line[m + 1..q]
  {
    l := SkipWhitespace(line, a);
    SkipWhitespaceSkips(line, a);
    m, q := AfterFromLayout(line, l + 4);
  }

  lemma InBracesLayout(line: string, a: nat) returns (k: nat, l: nat, m: nat, q: nat)
    requires a <= |line| && InBraces(line, a).Some?
    ensures InBracesAt(line, a, k, l, m, q) && InBraces(line, a).value == line[m + 1..q]
  {
    k := FindChar(line, a, '}');
    FindCharSkips(line, a, '}');
    l, m, q := AfterBracesLayout(line, k + 1);
  }

  lemma AfterKeywordLayout(line: string, a: nat) returns (j: nat, k: nat, l: nat, m: nat, q: nat)
    requires a <= |line| && AfterKeyword(line, a).Some?
    ensures AfterKeywordAt(line, a, j, k, l, m, q) && AfterKeyword(line, a).value == line[m + 1..q]
  {
    j := SkipWhitespace(line, a);
    SkipWhitespaceSkips(line, a);
    k, l, m, q := InBracesLayout(line, j + 1);
  }

  lemma MatchAtLayout(line: string, i: nat) returns (j: nat, k: nat, l: nat, m: nat, q: nat)
    requires i <= |line| && MatchAt(line, i).Some?
    ensures MatchLayout(line, i, j, k, l, m, q) && MatchAt(line, i).value == line[m + 1..q]
  {
    j, k, l, m, q := AfterKeywordLayout(line, i + 6);
  }

  /** An occurrence of a concatenation is an occurrence of each part, side by side. */
  lemma OccursConcat(s: string, u: string, v: string, a: nat)
    ensures OccursAt(s, u + v, a) <==> OccursAt(s, u, a) && OccursAt(s, v, a + |u|)
  {
    if OccursAt(s, u, a) && OccursAt(s, v, a + |u|) {
      assert s[a..a + |u + v|] == s[a..a + |u|] + s[a + |u|..a + |u| + |v|];
    }
    if OccursAt(s, u + v, a) {
      assert s[a..a + |u|] == s[a..a + |u + v|][..|u|];
      assert s[a + |u|..a + |u| + |v|] == s[a..a + |u + v|][|u|..];
    }
  }

  /** The text of each stage is its own piece, then its separator, then the text of
      the next stage; these put an occurrence of the three together. */
  lemma JoinSeparated(s: string, a: nat, u: string, sep: string, v: string)
    requires OccursAt(s, u, a) && OccursAt(s, sep, a + |u|) && OccursAt(s, v, a + |u| + |sep|)
    ensures OccursAt(s, u + (sep + v), a)
  {
    OccursConcat(s, sep, v, a + |u|);
    OccursConcat(s, u, sep + v, a);
  }

  lemma JoinAfterFrom(s: string, a: nat, ws3: string, capture: string)
    requires OccursAt(s, ws3, a) && OccursAt(s, "'", a + |ws3|) && OccursAt(s, QuotedPathText(capture), a + |ws3| + 1)
    ensures OccursAt(s, AfterFromText(ws3, capture), a)
  {
    JoinSeparated(s, a, ws3, "'", QuotedPathText(capture));
  }

  lemma JoinAfterBraces(s: string, a: nat, ws2: string, ws3: string, capture: string)
    requires OccursAt(s, ws2, a) && OccursAt(s, "from", a + |ws2|) && OccursAt(s, AfterFromText(ws3, capture), a + |ws2| + 4)
    ensures OccursAt(s, AfterBracesText(ws2, ws3, capture), a)
  {
    JoinSeparated(s, a, ws2, "from", AfterFromText(ws3, capture));
  }

  lemma JoinInBraces(s: string, a: nat, body: string, ws2: string, ws3: string, capture: string)
    requires OccursAt(s, body, a) && OccursAt(s, "}", a + |body|) && OccursAt(s, AfterBracesText(ws2, ws3, capture), a + |body| + 1)
    ensures OccursAt(s, InBracesText(body, ws2, ws3, capture), a)
  {
    JoinSeparated(s, a, body, "}", AfterBracesText(ws2, ws3, capture));
  }

  lemma JoinAfterKeyword(s: string, a: nat, ws1: string, body: string, ws2: string, ws3: string, capture: string)
    requires OccursAt(s, ws1, a) && OccursAt(s, "{", a + |ws1|) && OccursAt(s, InBracesText(body, ws2, ws3, capture), a + |ws1| + 1)
    ensures OccursAt(s, AfterKeywordText(ws1, body, ws2, ws3, capture), a)
  {
    JoinSeparated(s, a, ws1, "{", InBracesText(body, ws2, ws3, capture));
  }

  /** Stage by stage, a layout spells out the stage's text with the pieces it delimits. */
  lemma QuotedPathSpelled(line: string, a: nat, q: nat)
    requires QuotedPathAt(line, a, q)
    ensures OccursAt(line, QuotedPathText(line[a..q]), a)
  {
    assert line[q..q + 2] == "';";
    OccursConcat(line, line[a..q], "';", a);
  }

  lemma AfterFromSpelled(line: string, a: nat, m: nat, q: nat)
    requires AfterFromAt(line, a, m, q)
    ensures OccursAt(line, AfterFromText(line[a..m], line[m + 1..q]), a)
  {
    QuotedPathSpelled(line, m + 1, q);
    assert OccursAt(line, "'", m);
    JoinAfterFrom(line, a, line[a..m], line[m + 1..q]);
  }

  lemma AfterBracesSpelled(line: string, a: nat, l: nat, m: nat, q: nat)
    requires AfterBracesAt(line, a, l, m, q)
    ensures OccursAt(line, AfterBracesText(line[a..l], line[l + 4..m], line[m + 1..q]), a)
  {
    AfterFromSpelled(line, l + 4, m, q);
    JoinAfterBraces(line, a, line[a..l], line[l + 4..m], line[m + 1..q]);
  }

  lemma InBracesSpelled(line: string, a: nat, k: nat, l: nat, m: nat, q: nat)
    requires InBracesAt(line, a, k, l, m, q)
    ensures OccursAt(line, InBracesText(line[a..k], line[k + 1..l], line[l + 4..m], line[m + 1..q]), a)
  {
    AfterBracesSpelled(line, k + 1, l, m, q);
    assert OccursAt(line, "}", k);
    JoinInBraces(line, a, line[a..k], line[k + 1..l], line[l + 4..m], line[m + 1..q]);
  }

  lemma AfterKeywordSpelled(line: string, a: nat, j: nat, k: nat, l: nat, m: nat, q: nat)
    requires AfterKeywordAt(line, a, j, k, l, m, q)
    ensures OccursAt(line, AfterKeywordText(line[a..j], line[j + 1..k], line[k + 1..l], line[l + 4..m], line[m + 1..q]), a)
  {
    InBracesSpelled(line, j + 1, k, l, m, q);
    assert OccursAt(line, "{", j);
    JoinAfterKeyword(line, a, line[a..j], line[j + 1..k], line[k + 1..l], line[l + 4..m], line[m + 1..q]);
  }

  lemma MatchSpelled(line: string, i: nat, j: nat, k: nat, l: nat, m: nat, q: nat)
    requires MatchLayout(line, i, j, k, l, m, q)
    ensures OccursAt(line, Pattern(line[i + 6..j], line[j + 1..k], line[k + 1..l], line[l + 4..m], line[m + 1..q]), i)
  {
    AfterKeywordSpelled(line, i + 6, j, k, l, m, q);
    OccursConcat(line, "import", AfterKeywordText(line[i + 6..j], line[j + 1..k], line[k + 1..l], line[l + 4..m], line[m + 1..q]), i);
  }

  /** The converse of the joins: an occurrence of a stage's text splits into its
      piece, its separator and the next stage's text. */
  lemma SplitSeparated(s: string, a: nat, u: string, sep: string, v: string)
    requires OccursAt(s, u + (sep + v), a)
    ensures OccursAt(s, u, a) && OccursAt(s, sep, a + |u|) && OccursAt(s, v, a + |u| + |sep|)
  {
    OccursConcat(s, u, sep + v, a);
    OccursConcat(s, sep, v, a + |u|);
  }

  lemma SplitAfterFrom(s: string, a: nat, ws3: string, capture: string)
    requires OccursAt(s, AfterFromText(ws3, capture), a)
    ensures OccursAt(s, ws3, a) && a + |ws3| < |s| && s[a + |ws3|] == '\''
    ensures OccursAt(s, QuotedPathText(capture), a + |ws3| + 1)
  {
    SplitSeparated(s, a, ws3, "'", QuotedPathText(capture));
    assert s[a + |ws3|] == s[a + |ws3|..a + |ws3| + 1][0];
  }

  lemma SplitAfterBraces(s: string, a: nat, ws2: string, ws3: string, capture: string)
    requires OccursAt(s, AfterBracesText(ws2, ws3, capture), a)
    ensures OccursAt(s, ws2, a) && OccursAt(s, "from", a + |ws2|)
    ensures OccursAt(s, AfterFromText(ws3, capture), a + |ws2| + 4)
  {
    SplitSeparated(s, a, ws2, "from", AfterFromText(ws3, capture));
  }

  lemma SplitInBraces(s: string, a: nat, body: string, ws2: string, ws3: string, capture: string)
    requires OccursAt(s, InBracesText(body, ws2, ws3, capture), a)
    ensures OccursAt(s, body, a) && a + |body| < |s| && s[a + |body|] == '}'
    ensures OccursAt(s, AfterBracesText(ws2, ws3, capture), a + |body| + 1)
  {
    SplitSeparated(s, a, body, "}", AfterBracesText(ws2, ws3, capture));
    assert s[a + |body|] == s[a + |body|..a + |body| + 1][0];
  }

  lemma SplitAfterKeyword(s: string, a: nat, ws1: string, body: string, ws2: string, ws3: string, capture: string)
    requires OccursAt(s, AfterKeywordText(ws1, body, ws2, ws3, capture), a)
    ensures OccursAt(s, ws1, a) && a + |ws1| < |s| && s[a + |ws1|] == '{'
    ensures OccursAt(s, InBracesText(body, ws2, ws3, capture), a + |ws1| + 1)
  {
    SplitSeparated(s, a, ws1, "{", InBracesText(body, ws2, ws3, capture));
    assert s[a + |ws1|] == s[a + |ws1|..a + |ws1| + 1][0];
  }

  /** Stage by stage, an occurrence of the stage's text gives its layout. */
  lemma QuotedPathUnspelled(line: string, a: nat, capture: string) returns (q: nat)
    requires IsCapture(capture) && OccursAt(line, QuotedPathText(capture), a)
    ensures QuotedPathAt(line, a, q) && line[a..q] == capture
  {
    OccursConcat(line, capture, "';", a);
    q := a + |capture|;
    assert line[q] == line[q..q + 2][0] && line[q + 1] == line[q..q + 2][1];
  }

  lemma AfterFromUnspelled(line: string, a: nat, ws3: string, capture: string) returns (m: nat, q: nat)
    requires AllWhitespace(ws3) && IsCapture(capture) && OccursAt(line, AfterFromText(ws3, capture), a)
    ensures AfterFromAt(line, a, m, q) && line[m + 1..q] == capture
  {
    SplitAfterFrom(line, a, ws3, capture);
    m := a + |ws3|;
    q := QuotedPathUnspelled(line, m + 1, capture);
  }

  lemma AfterBracesUnspelled(line: string, a: nat, ws2: string, ws3: string, capture: string) returns (l: nat, m: nat, q: nat)
    requires AllWhitespace(ws2) && AllWhitespace(ws3) && IsCapture(capture)
    requires OccursAt(line, AfterBracesText(ws2, ws3, capture), a)
    ensures AfterBracesAt(line, a, l, m, q) && line[m + 1..q] == capture
  {
    SplitAfterBraces(line, a, ws2, ws3, capture);
    l := a + |ws2|;
    m, q := AfterFromUnspelled(line, l + 4, ws3, capture);
  }

  lemma InBracesUnspelled(line: string, a: nat, body: string, ws2: string, ws3: string, capture: string)
    returns (k: nat, l: nat, m: nat, q: nat)
    requires '}' !in body && AllWhitespace(ws2) && AllWhitespace(ws3) && IsCapture(capture)
    requires OccursAt(line, InBracesText(body, ws2, ws3, capture), a)
    ensures InBracesAt(line, a, k, l, m, q) && line[m + 1..q] == capture
  {
    SplitInBraces(line, a, body, ws2, ws3, capture);
    k := a + |body|;
    l, m, q := AfterBracesUnspelled(line, k + 1, ws2, ws3, capture);
  }

  lemma AfterKeywordUnspelled(line: string, a: nat, ws1: string, body: string, ws2: string, ws3: string, capture: string)
    returns (j: nat, k: nat, l: nat, m: nat, q: nat)
    requires AllWhitespace(ws1) && '}' !in body && AllWhitespace(ws2) && AllWhitespace(ws3) && IsCapture(capture)
    requires OccursAt(line, AfterKeywordText(ws1, body, ws2, ws3, capture), a)
    ensures AfterKeywordAt(line, a, j, k, l, m, q) && line[m + 1..q] == capture
  {
    SplitAfterKeyword(line, a, ws1, body, ws2, ws3, capture);
    j := a + |ws1|;
    k, l, m, q := InBracesUnspelled(line, j + 1, body, ws2, ws3, capture);
  }

  lemma PatternUnspelled(line: string, i: nat, ws1: string, body: string, ws2: string, ws3: string, capture: string)
    returns (j: nat, k: nat, l: nat, m: nat, q: nat)
    requires AllWhitespace(ws1) && '}' !in body && AllWhitespace(ws2) && AllWhitespace(ws3) && IsCapture(capture)
    requires OccursAt(line, Pattern(ws1, body, ws2, ws3, capture), i)
    ensures MatchLayout(line, i, j, k, l, m, q) && line[m + 1..q] == capture
  {
    OccursConcat(line, "import", AfterKeywordText(ws1, body, ws2, ws3, capture), i);
    j, k, l, m, q := AfterKeywordUnspelled(line, i + 6, ws1, body, ws2, ws3, capture);
  }

  /** Whatever the matcher returns is a match of the expression. */
  lemma MatchAtSound(line: string, i: nat)
    requires i <= |line| && MatchAt(line, i).Some?
    ensures MatchesAt(line, i, MatchAt(line, i).value)
  {
    var j, k, l, m, q := MatchAtLayout(line, i);
    MatchSpelled(line, i, j, k, l, m, q);
  }

  /** Every match of the expression is found by the matcher, with the same capture. */
  lemma MatchAtComplete(line: string, i: nat, capture: string)
    requires i <= |line| && MatchesAt(line, i, capture)
    ensures MatchAt(line, i) == Some(capture)
  {
    var ws1, body, ws2, ws3 :| AllWhitespace(ws1) && '}' !in body && AllWhitespace(ws2) && AllWhitespace(ws3)
      && IsCapture(capture) && OccursAt(line, Pattern(ws1, body, ws2, ws3, capture), i);
    var j, k, l, m, q := PatternUnspelled(line, i, ws1, body, ws2, ws3, capture);
    MatchAtFinds(line, i, j, k, l, m, q);
  }

  /** No start position in [lo, hi) holds a match of the expression. */
  ghost predicate NoMatchIn(line: string, lo: nat, hi: nat)
  {
    forall n, c :: lo <= n < hi ==> !MatchesAt(line, n, c)
  }

  /** `FindMatch` reports the leftmost match at or after `i`, and nothing when there is none. */
  lemma {:induction false} FindMatchIsLeftmost(line: string, i: nat)
    requires i <= |line|
    ensures FindMatch(line, i).Some? ==>
      exists n :: i <= n <= |line| && MatchesAt(line, n, FindMatch(line, i).value) && NoMatchIn(line, i, n)
    ensures FindMatch(line, i).None? ==> NoMatchIn(line, i, |line| + 1)
    decreases |line| - i
  {
    if MatchAt(line, i).Some? {
      MatchAtSound(line, i);
      assert FindMatch(line, i) == MatchAt(line, i);
      assert NoMatchIn(line, i, i);
    } else {
      assert NoMatchIn(line, i, i + 1) by {
        forall c | MatchesAt(line, i, c) ensures false {
          MatchAtComplete(line, i, c);
        }
      }
      if i < |line| {
        FindMatchIsLeftmost(line, i + 1);
        assert FindMatch(line, i) == FindMatch(line, i + 1);
        if FindMatch(line, i + 1).Some? {
          var n :| i + 1 <= n <= |line| && MatchesAt(line, n, FindMatch(line, i).value) && NoMatchIn(line, i + 1, n);
          assert NoMatchIn(line, i, n);
        } else {
          assert NoMatchIn(line, i, |line| + 1);
        }
      }
    }
  }

  /** `Capture` reports the leftmost match of the expression on the line, and nothing
      when the line holds none. */
  lemma CaptureIsLeftmostMatch(line: string)
    ensures Capture(line).Some? ==>
      exists n :: 0 <= n <= |line| && MatchesAt(line, n, Capture(line).value) && NoMatchIn(line, 0, n)
    ensures Capture(line).None? ==> forall n, c :: 0 <= n <= |line| ==> !MatchesAt(line, n, c)
  {
    FindMatchIsLeftmost(line, 0);
  }
}
