/** Injecting the token, avatar id, voice id and three lines of text into the viewer template. */
module Template {

  const TOKEN := "__TOKEN__"
  const AVATAR_ID := "__AVATAR_ID__"
  const VOICE_ID := "__VOICE_ID__"
  const LINE1 := "__LINE1__"
  const LINE2 := "__LINE2__"
  const LINE3 := "__LINE3__"

  const LINE1_TEXT := "Hello, how are you."
  const LINE2_TEXT := "Welcome to our restaurant."
  const LINE3_TEXT := "It is our pleasure serving you."

  /** `pat` occurs in `s` starting at index `i`. */
  predicate MatchAt(s: string, pat: string, i: int)
  {
    0 <= i && i + |pat| <= |s| && s[i..i + |pat|] == pat
  }

  predicate Contains(s: string, pat: string)
  {
    exists i :: 0 <= i <= |s| && MatchAt(s, pat, i)
  }

  predicate NoPlaceholder(s: string)
  {
    && !Contains(s, TOKEN) && !Contains(s, AVATAR_ID) && !Contains(s, VOICE_ID)
    && !Contains(s, LINE1) && !Contains(s, LINE2) && !Contains(s, LINE3)
  }

  lemma ContainsTail(s: string, pat: string)
    requires s != []
    ensures Contains(s[1..], pat) ==> Contains(s, pat)
  {
    if Contains(s[1..], pat) {
      var i :| 0 <= i <= |s[1..]| && MatchAt(s[1..], pat, i);
      assert s[1..][i..i + |pat|] == s[i + 1..i + 1 + |pat|];
      assert MatchAt(s, pat, i + 1);
    }
  }

  /** Python's `s.replace(pat, rep)` for a non-empty `pat`: occurrences are found left
      to right, each replaced, and scanning resumes after it (no overlaps). */
  function ReplaceAll(s: string, pat: string, rep: string): string
    requires pat != ""
    decreases |s|
  {
    if |s| < |pat| then s
    else if s[..|pat|] == pat then rep + ReplaceAll(s[|pat|..], pat, rep)
    else [s[0]] + ReplaceAll(s[1..], pat, rep)
  }

  /** Text in which `pat` does not occur comes back unchanged. */
  lemma {:induction false} ReplaceAllAbsent(s: string, pat: string, rep: string)
    requires pat != "" && !Contains(s, pat)
    ensures ReplaceAll(s, pat, rep) == s
    decreases |s|
  {
    if |s| >= |pat| {
      assert !MatchAt(s, pat, 0);
      ContainsTail(s, pat);
      ReplaceAllAbsent(s[1..], pat, rep);
      assert s == [s[0]] + s[1..];
    }
  }

  /** `parts[0] + sep + parts[1] + sep + ... + parts[n-1]` */
  function Join(parts: seq<string>, sep: string): string
  {
    if |parts| == 0 then ""
    else if |parts| == 1 then parts[0]
    else parts[0] + sep + Join(parts[1..], sep)
  }

  /** When no occurrence of `pat` starts inside `t`, the first one found in
      `t + pat + rest` is the one right after `t`. */
  lemma {:induction false} ReplaceAllPrefix(t: string, rest: string, pat: string, rep: string)
    requires pat != "" && !Contains(t + pat[..|pat| - 1], pat)
    ensures ReplaceAll(t + pat + rest, pat, rep) == t + rep + ReplaceAll(rest, pat, rep)
    decreases |t|
  {
    var s := t + pat + rest;
    if t == [] {
      assert ReplaceAll(s, pat, rep) == rep + ReplaceAll(rest, pat, rep) by {
        assert s == pat + rest && (pat + rest)[|pat|..] == rest;
        ReplaceAllHit(pat + rest, pat, rep);
      }
    } else {
      assert ReplaceAll(s, pat, rep) == [t[0]] + ReplaceAll(t[1..] + pat + rest, pat, rep) by {
        PrefixStep(t, rest, pat);
        ReplaceAllSkip(s, pat, rep);
      }
      assert !Contains(t[1..] + pat[..|pat| - 1], pat) by {
        PrefixStep(t, rest, pat);
      }
      ReplaceAllPrefix(t[1..], rest, pat, rep);
      assert t == [t[0]] + t[1..];
    }
  }

  /** The facts one step of `ReplaceAllPrefix` needs about a non-empty `t`. */
  lemma PrefixStep(t: string, rest: string, pat: string)
    requires pat != "" && t != [] && !Contains(t + pat[..|pat| - 1], pat)
    ensures (t + pat + rest)[..|pat|] != pat
    ensures (t + pat + rest)[0] == t[0]
    ensures (t + pat + rest)[1..] == t[1..] + pat + rest
    ensures !Contains(t[1..] + pat[..|pat| - 1], pat)
  {
    var s, y := t + pat + rest, t + pat[..|pat| - 1];
    assert s[..|pat|] == y[..|pat|];
    assert !MatchAt(y, pat, 0);
    assert (t + pat)[1..] == t[1..] + pat;
    assert y[1..] == t[1..] + pat[..|pat| - 1];
    ContainsTail(y, pat);
  }

  /** Where `pat` starts at the front, `ReplaceAll` emits `rep` and resumes after it. */
  lemma ReplaceAllHit(s: string, pat: string, rep: string)
    requires pat != "" && |s| >= |pat| && s[..|pat|] == pat
    ensures ReplaceAll(s, pat, rep) == rep + ReplaceAll(s[|pat|..], pat, rep)
  {
  }

  /** Where `pat` does not start at the front, `ReplaceAll` keeps the first character. */
  lemma ReplaceAllSkip(s: string, pat: string, rep: string)
    requires pat != "" && |s| >= |pat| && s[..|pat|] != pat
    ensures ReplaceAll(s, pat, rep) == [s[0]] + ReplaceAll(s[1..], pat, rep)
  {
  }

  /** The partner of `ReplaceAll`: a string made of pieces separated by `pat`, where no
      occurrence of `pat` starts inside a piece, comes back with `rep` as the separator. */
  lemma {:induction false} ReplaceAllJoin(parts: seq<string>, pat: string, rep: string)
    requires pat != "" && parts != []
    requires forall k :: 0 <= k < |parts| - 1 ==> !Contains(parts[k] + pat[..|pat| - 1], pat)
    requires !Contains(parts[|parts| - 1], pat)
    ensures ReplaceAll(Join(parts, pat), pat, rep) == Join(parts, rep)
  {
    if |parts| == 1 {
      ReplaceAllAbsent(parts[0], pat, rep);
    } else {
      ReplaceAllPrefix(parts[0], Join(parts[1..], pat), pat, rep);
      ReplaceAllJoin(parts[1..], pat, rep);
    }
  }

  /** The six chained `str.replace` calls, in the order the app applies them. */
  function Substitute(html: string, token: string, avatarId: string, voiceId: string): string
  {
    ReplaceAll(ReplaceAll(ReplaceAll(ReplaceAll(ReplaceAll(ReplaceAll(
      html, TOKEN, token), AVATAR_ID, avatarId), VOICE_ID, voiceId),
      LINE1, LINE1_TEXT), LINE2, LINE2_TEXT), LINE3, LINE3_TEXT)
  }

  /** A template holding none of the six placeholders comes back unchanged. */
  lemma SubstituteNoPlaceholder(html: string, token: string, avatarId: string, voiceId: string)
    requires NoPlaceholder(html)
    ensures Substitute(html, token, avatarId, voiceId) == html
  {
    ReplaceAllAbsent(html, TOKEN, token);
    ReplaceAllAbsent(html, AVATAR_ID, avatarId);
    ReplaceAllAbsent(html, VOICE_ID, voiceId);
    ReplaceAllAbsent(html, LINE1, LINE1_TEXT);
    ReplaceAllAbsent(html, LINE2, LINE2_TEXT);
    ReplaceAllAbsent(html, LINE3, LINE3_TEXT);
  }

  predicate NoUnderscore(s: string)
  {
    forall i :: 0 <= i < |s| ==> s[i] != '_'
  }

  /** Every placeholder begins with an underscore, so text without one holds none. */
  lemma UnderscoreFree(s: string, pat: string)
    requires NoUnderscore(s) && pat != "" && pat[0] == '_'
    ensures !Contains(s, pat)
  {
    forall i | 0 <= i && i + |pat| <= |s|
      ensures !MatchAt(s, pat, i)
    {
      assert s[i..i + |pat|][0] == s[i] != pat[0];
    }
  }

  /** A placeholder cannot start inside underscore-free text that it directly follows. */
  lemma UnderscoreFreeBefore(t: string, pat: string)
    requires NoUnderscore(t) && pat != "" && pat[0] == '_'
    ensures !Contains(t + pat[..|pat| - 1], pat)
  {
    var y := t + pat[..|pat| - 1];
    forall i | 0 <= i && i + |pat| <= |y|
      ensures !MatchAt(y, pat, i)
    {
      assert y[i..i + |pat|][0] == y[i] == t[i] != pat[0];
    }
  }

  lemma {:induction false} JoinUnderscoreFree(parts: seq<string>, sep: string)
    requires forall k :: 0 <= k < |parts| ==> NoUnderscore(parts[k])
    requires NoUnderscore(sep)
    ensures NoUnderscore(Join(parts, sep))
  {
    if |parts| > 1 {
      JoinUnderscoreFree(parts[1..], sep);
    }
  }

  /** For a template whose text around its `__TOKEN__` slots has no underscore, and an
      underscore-free token, the result is the template with the token in every slot. */
  lemma SubstituteTokenSlots(parts: seq<string>, token: string, avatarId: string, voiceId: string)
    requires parts != [] && forall k :: 0 <= k < |parts| ==> NoUnderscore(parts[k])
    requires NoUnderscore(token)
    ensures Substitute(Join(parts, TOKEN), token, avatarId, voiceId) == Join(parts, token)
  {
    forall k | 0 <= k < |parts| - 1
      ensures !Contains(parts[k] + TOKEN[..|TOKEN| - 1], TOKEN)
    {
      UnderscoreFreeBefore(parts[k], TOKEN);
    }
    UnderscoreFree(parts[|parts| - 1], TOKEN);
    ReplaceAllJoin(parts, TOKEN, token);
    var h := Join(parts, token);
    JoinUnderscoreFree(parts, token);
    UnderscoreFree(h, AVATAR_ID);
    ReplaceAllAbsent(h, AVATAR_ID, avatarId);
    UnderscoreFree(h, VOICE_ID);
    ReplaceAllAbsent(h, VOICE_ID, voiceId);
    UnderscoreFree(h, LINE1);
    ReplaceAllAbsent(h, LINE1, LINE1_TEXT);
    UnderscoreFree(h, LINE2);
    ReplaceAllAbsent(h, LINE2, LINE2_TEXT);
    UnderscoreFree(h, LINE3);
    ReplaceAllAbsent(h, LINE3, LINE3_TEXT);
  }

  /** Values free of placeholders do not make the result free of them: the inserted
      value can join the text after its slot into a new placeholder. */
  lemma ValueCanFormPlaceholder()
    ensures NoPlaceholder("__") && NoPlaceholder("a") && NoPlaceholder("v")
    ensures Substitute("__TOKEN__TOKEN__", "__", "a", "v") == TOKEN
    ensures Contains(Substitute("__TOKEN__TOKEN__", "__", "a", "v"), TOKEN)
  {
    assert ReplaceAll("__TOKEN__TOKEN__", TOKEN, "__") == TOKEN;
    assert ReplaceAll(TOKEN, AVATAR_ID, "a") == TOKEN;
    assert ReplaceAll(TOKEN, VOICE_ID, "v") == TOKEN;
    assert TOKEN[..9][2] == 'T';
    assert ReplaceAll(TOKEN, LINE1, LINE1_TEXT) == TOKEN;
    assert ReplaceAll(TOKEN, LINE2, LINE2_TEXT) == TOKEN;
    assert ReplaceAll(TOKEN, LINE3, LINE3_TEXT) == TOKEN;
    assert MatchAt(TOKEN, TOKEN, 0);
  }
}
