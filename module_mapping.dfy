/** Import aliases (module_mapping.rs): an `ALIAS:PATH` parameter and the
    substitution of the alias inside import lines. */
module ModuleMappings {

  import opened Wrappers
  import opened Text

  datatype ModuleMapping = ModuleMapping(from: string, to: string)

  datatype FromParamStringError = InvalidFormat(param: string)

  /** Splits at the first ':' only; the rest of the text, colons included, is the target. */
  function FromParamString(s: string): (r: Result<ModuleMapping, FromParamStringError>)
    ensures r.Ok? <==> ':' in s
    ensures r.Ok? ==> r.value.from + ":" + r.value.to == s && ':' !in r.value.from
    ensures r.Err? ==> r.error == InvalidFormat(s)
  {
    match IndexOf(s, ':')
    case None => Err(InvalidFormat(s))
    case Some(i) =>
      assert s[..i] + ":" + s[i + 1..] == s by {
        assert s == s[..i] + [s[i]] + s[i + 1..];
      }
      Ok(ModuleMapping(s[..i], s[i + 1..]))
  }

  /** The parameter text of a mapping whose alias has no ':' parses back to that mapping. */
  lemma FromParamStringRoundTrip(from: string, to: string)
    requires ':' !in from
    ensures FromParamString(from + ":" + to) == Ok(ModuleMapping(from, to))
  {
    var s := from + ":" + to;
    assert s[|from|] == ':';
    var i := IndexOf(s, ':').value;
    assert s[..i] == from;
    assert s[i + 1..] == to;
  }

  /** `rep` before, between and after every character: what replacing the empty
      pattern does. */
  function Interleave(s: string, rep: string): string
  {
    if s == [] then rep else rep + [s[0]] + Interleave(s[1..], rep)
  }

  /** Text replacement as `str::replace` does it: the occurrences of `pat` that
      `match_indices` reports, leftmost first and without overlapping, are each
      replaced by `rep`. */
  function ReplaceAll(s: string, pat: string, rep: string): string
  {
    if pat == [] then Interleave(s, rep) else ReplaceEach(s, pat, rep)
  }

  /** The scan for a non-empty pattern. */
  function ReplaceEach(s: string, pat: string, rep: string): string
    requires pat != []
    decreases |s|
  {
    match FirstOccurrence(s, pat)
    case None => s
    case Some(i) => s[..i] + (rep + ReplaceEach(s[i + |pat|..], pat, rep))
  }

  /** One step of the scan: the text before the first occurrence, the replacement,
      then the rest of the text replaced in the same way. */
  lemma ReplaceStep(s: string, pat: string, rep: string, i: nat)
    requires pat != [] && FirstOccurrence(s, pat) == Some(i)
    ensures ReplaceAll(s, pat, rep) == s[..i] + (rep + ReplaceAll(s[i + |pat|..], pat, rep))
  {
    var rest := s[i + |pat|..];
    ReplaceEachStep(s, pat, rep, i);
    assert ReplaceAll(rest, pat, rep) == ReplaceEach(rest, pat, rep);
  }

  lemma ReplaceEachStep(s: string, pat: string, rep: string, i: nat)
    requires pat != [] && FirstOccurrence(s, pat) == Some(i)
    ensures ReplaceEach(s, pat, rep) == s[..i] + (rep + ReplaceEach(s[i + |pat|..], pat, rep))
  {
  }

  /** Text without an occurrence of a non-empty pattern comes back unchanged. */
  lemma ReplaceAbsent(s: string, pat: string, rep: string)
    requires pat != [] && !Contains(s, pat)
    ensures ReplaceAll(s, pat, rep) == s
  {
    FirstOccurrenceIsFirst(s, pat);
  }

  /** The left-to-right scan: text up to the first occurrence is kept, that occurrence
      is replaced, and replacement resumes just after it. */
  lemma ReplaceAtFirstOccurrence(s: string, pat: string, rep: string, i: nat)
    requires pat != [] && OccursAt(s, pat, i)
    requires forall j :: 0 <= j < i ==> !OccursAt(s, pat, j)
    ensures ReplaceAll(s, pat, rep) == s[..i] + (rep + ReplaceAll(s[i + |pat|..], pat, rep))
  {
    FirstOccurrenceUnique(s, pat, i);
    ReplaceStep(s, pat, rep, i);
  }

  /** Replacing a pattern by itself changes nothing. */
  lemma ReplaceSelf(s: string, pat: string)
    ensures ReplaceAll(s, pat, pat) == s
  {
    if pat == [] {
      InterleaveEmpty(s);
    } else {
      ReplaceEachSelf(s, pat);
    }
  }

  lemma {:induction false} ReplaceEachSelf(s: string, pat: string)
    requires pat != []
    ensures ReplaceEach(s, pat, pat) == s
    decreases |s|
  {
    FirstOccurrenceIsFirst(s, pat);
    match FirstOccurrence(s, pat)
    case None =>
    case Some(i) =>
      ReplaceStep(s, pat, pat, i);
      ReplaceEachSelf(s[i + |pat|..], pat);
      assert s[..i] + (pat + s[i + |pat|..]) == s by {
        assert s[i..i + |pat|] == pat;
        assert s == s[..i] + (s[i..i + |pat|] + s[i + |pat|..]);
      }
  }

  lemma {:induction false} InterleaveEmpty(s: string)
    ensures Interleave(s, []) == s
    decreases |s|
  {
    if s != [] {
      InterleaveEmpty(s[1..]);
      assert [s[0]] + s[1..] == s;
    }
  }

  /** The empty pattern matches before every character and at the end: `rep` is
      inserted |s| + 1 times, the result starts and ends with it, and removing the
      copies gives `s` back. */
  lemma EmptyPatternInterleaves(s: string, rep: string)
    ensures |ReplaceAll(s, [], rep)| == |s| + (|s| + 1) * |rep|
    ensures StartsWith(ReplaceAll(s, [], rep), rep) && EndsWith(ReplaceAll(s, [], rep), rep)
    ensures Strip(ReplaceAll(s, [], rep), |rep|) == s
  {
    InterleaveLength(s, rep);
    InterleaveStarts(s, rep);
    InterleaveEnds(s, rep);
    InterleaveStrip(s, rep);
  }

  lemma {:induction false} InterleaveLength(s: string, rep: string)
    ensures |Interleave(s, rep)| == |s| + (|s| + 1) * |rep|
    decreases |s|
  {
    if s != [] {
      InterleaveLength(s[1..], rep);
      assert |Interleave(s, rep)| == |rep| + 1 + |Interleave(s[1..], rep)|;
    }
  }

  lemma InterleaveStarts(s: string, rep: string)
    ensures StartsWith(Interleave(s, rep), rep)
  {
    if s != [] {
      var r := Interleave(s, rep);
      assert r == rep + ([s[0]] + Interleave(s[1..], rep));
      assert r[..|rep|] == rep;
    }
  }

  lemma {:induction false} InterleaveEnds(s: string, rep: string)
    ensures EndsWith(Interleave(s, rep), rep)
    decreases |s|
  {
    if s != [] {
      var t := Interleave(s[1..], rep);
      var r := Interleave(s, rep);
      InterleaveEnds(s[1..], rep);
      assert r == (rep + [s[0]]) + t;
      assert r[|r| - |rep|..] == t[|t| - |rep|..];
    }
  }

  lemma {:induction false} InterleaveStrip(s: string, rep: string)
    ensures Strip(Interleave(s, rep), |rep|) == s
    decreases |s|
  {
    if s != [] {
      var t := Interleave(s[1..], rep);
      var r := Interleave(s, rep);
      InterleaveStrip(s[1..], rep);
      assert r == (rep + [s[0]]) + t;
      assert r[|rep|] == s[0];
      assert r[|rep| + 1..] == t;
      assert [s[0]] + s[1..] == s;
    }
  }

  /** Undoes an interleaving: drops `n` characters, keeps one, and repeats; what is
      left at the end (at most `n` characters) is dropped. */
  function Strip(r: string, n: nat): string
    decreases |r|
  {
    if |r| <= n then [] else [r[n]] + Strip(r[n + 1..], n)
  }

  /** A line is an import line when, after leading white space, it starts with `import`. */
  predicate IsImportLine(line: string)
  {
    StartsWith(TrimStart(line), "import")
  }

  /** Rewrites the alias only inside import lines that contain it. */
  function ReplaceImportAlias(m: ModuleMapping, line: string): string
  {
    if IsImportLine(line) && Contains(line, m.from) then ReplaceAll(line, m.from, m.to) else line
  }

  /** Lines that are not import lines, and import lines without the alias, are left alone. */
  lemma ReplaceImportAliasKeepsOtherLines(m: ModuleMapping, line: string)
    requires !IsImportLine(line) || forall i :: 0 <= i <= |line| ==> !OccursAt(line, m.from, i)
    ensures ReplaceImportAlias(m, line) == line
  {
  }

  /** On an import line the first occurrence of a non-empty alias is replaced by its
      target; the text before it is untouched, and the rest of the line is rewritten the
      same way. */
  lemma ReplaceImportAliasRewritesFirst(m: ModuleMapping, line: string, i: nat)
    requires IsImportLine(line) && m.from != [] && OccursAt(line, m.from, i)
    requires forall j :: 0 <= j < i ==> !OccursAt(line, m.from, j)
    ensures ReplaceImportAlias(m, line) == line[..i] + (m.to + ReplaceAll(line[i + |m.from|..], m.from, m.to))
  {
    assert Contains(line, m.from) by {
      assert OccursAt(line, m.from, i);
    }
    calc {
      ReplaceImportAlias(m, line);
      { ReplaceImportAliasOnImportLine(m, line); }
      ReplaceAll(line, m.from, m.to);
      { ReplaceAtFirstOccurrence(line, m.from, m.to, i); }
      line[..i] + (m.to + ReplaceAll(line[i + |m.from|..], m.from, m.to));
    }
  }

  lemma ReplaceImportAliasOnImportLine(m: ModuleMapping, line: string)
    requires IsImportLine(line) && Contains(line, m.from)
    ensures ReplaceImportAlias(m, line) == ReplaceAll(line, m.from, m.to)
  {
  }

  /** A mapping whose target equals its alias never changes a line. */
  lemma IdentityMappingKeepsLines(m: ModuleMapping, line: string)
    requires m.from == m.to
    ensures ReplaceImportAlias(m, line) == line
  {
    ReplaceSelf(line, m.from);
  }
}
