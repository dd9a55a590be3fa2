/** The viewer template read as text pieces with placeholder slots between them, and
    what the six chained replacements make of it. */
module Slots {
  import opened Template

  /** The six placeholders the page fills. */
  datatype Slot = TokenSlot | AvatarSlot | VoiceSlot | Line1Slot | Line2Slot | Line3Slot

  /** The values the page puts in: the session token, the selected avatar's id and the voice id. */
  datatype Values = Values(token: string, avatarId: string, voiceId: string)

  /** The position of a slot's `replace` call in the chain (0 to 5). */
  function Step(s: Slot): nat
  {
    match s
    case TokenSlot => 0
    case AvatarSlot => 1
    case VoiceSlot => 2
    case Line1Slot => 3
    case Line2Slot => 4
    case Line3Slot => 5
  }

  /** The slot whose `replace` call is `j`-th in the chain. */
  function SlotOfStep(j: nat): (s: Slot)
    requires j < 6
    ensures Step(s) == j
  {
    if j == 0 then TokenSlot
    else if j == 1 then AvatarSlot
    else if j == 2 then VoiceSlot
    else if j == 3 then Line1Slot
    else if j == 4 then Line2Slot
    else Line3Slot
  }

  function Placeholder(s: Slot): string
  {
    match s
    case TokenSlot => TOKEN
    case AvatarSlot => AVATAR_ID
    case VoiceSlot => VOICE_ID
    case Line1Slot => LINE1
    case Line2Slot => LINE2
    case Line3Slot => LINE3
  }

  function Value(s: Slot, v: Values): string
  {
    match s
    case TokenSlot => v.token
    case AvatarSlot => v.avatarId
    case VoiceSlot => v.voiceId
    case Line1Slot => LINE1_TEXT
    case Line2Slot => LINE2_TEXT
    case Line3Slot => LINE3_TEXT
  }

  /** `parts[0] + Placeholder(slots[0]) + parts[1] + ... + parts[n]`: the template. */
  function Layout(parts: seq<string>, slots: seq<Slot>): string
    requires |parts| == |slots| + 1
    decreases |slots|
  {
    if slots == [] then parts[0]
    else parts[0] + Placeholder(slots[0]) + Layout(parts[1..], slots[1..])
  }

  /** `parts[0] + Value(slots[0]) + parts[1] + ... + parts[n]`: the page the template describes. */
  function Filled(parts: seq<string>, slots: seq<Slot>, v: Values): string
    requires |parts| == |slots| + 1
    decreases |slots|
  {
    if slots == [] then parts[0]
    else parts[0] + Value(slots[0], v) + Filled(parts[1..], slots[1..], v)
  }

  /** What a slot shows once the first `j` replacements have run. */
  function Shown(s: Slot, j: nat, v: Values): string
  {
    if Step(s) < j then Value(s, v) else Placeholder(s)
  }

  /** The text after the first `j` replacements, if each one hit exactly its slots. */
  function Staged(parts: seq<string>, slots: seq<Slot>, j: nat, v: Values): string
    requires |parts| == |slots| + 1
    decreases |slots|
  {
    if slots == [] then parts[0]
    else parts[0] + Shown(slots[0], j, v) + Staged(parts[1..], slots[1..], j, v)
  }

  /** Replacements `j` to 5 of the chain, applied in order. */
  function ReplaceFrom(s: string, j: nat, v: Values): string
    requires j <= 6
    decreases 6 - j
  {
    if j == 6 then s
    else ReplaceFrom(ReplaceAll(s, Placeholder(SlotOfStep(j)), Value(SlotOfStep(j), v)), j + 1, v)
  }

  /** `i` is where a slot filled by replacement `j` starts in the text of stage `j`. */
  predicate SlotAt(parts: seq<string>, slots: seq<Slot>, j: nat, v: Values, i: int)
    requires |parts| == |slots| + 1
    decreases |slots|
  {
    && slots != []
    && (|| (i == |parts[0]| && Step(slots[0]) == j)
        || SlotAt(parts[1..], slots[1..], j, v, i - |parts[0]| - |Shown(slots[0], j, v)|))
  }

  /** When replacement `j` runs, its placeholder occurs only where one of its slots starts. */
  ghost predicate OnlyAtSlots(parts: seq<string>, slots: seq<Slot>, j: nat, v: Values)
    requires |parts| == |slots| + 1 && j < 6
  {
    forall i :: 0 <= i && !SlotAt(parts, slots, j, v, i) ==>
      !MatchAt(Staged(parts, slots, j, v), Placeholder(SlotOfStep(j)), i)
  }

  /** No two underscores in a row and none at either end, as in `snake_case` text. */
  predicate Tidy(s: string)
  {
    && (forall k :: 0 <= k < |s| - 1 ==> !(s[k] == '_' && s[k + 1] == '_'))
    && (s != [] ==> s[0] != '_' && s[|s| - 1] != '_')
  }

  /** The characters placeholder names are made of. */
  predicate NameChar(c: char)
  {
    'A' <= c <= 'Z' || '0' <= c <= '9' || c == '_'
  }

  /** `s` holds a character no placeholder name uses (a quote, a space, a lower-case letter). */
  predicate HasBreak(s: string)
  {
    exists k :: 0 <= k < |s| && !NameChar(s[k])
  }

  // ---------------------------------------------------------------- the chain, stage by stage

  lemma SubstituteIsReplaceFrom(html: string, v: Values)
    ensures Substitute(html, v.token, v.avatarId, v.voiceId) == ReplaceFrom(html, 0, v)
  {
    var s1 := ReplaceAll(html, TOKEN, v.token);
    var s2 := ReplaceAll(s1, AVATAR_ID, v.avatarId);
    var s3 := ReplaceAll(s2, VOICE_ID, v.voiceId);
    var s4 := ReplaceAll(s3, LINE1, LINE1_TEXT);
    var s5 := ReplaceAll(s4, LINE2, LINE2_TEXT);
    var s6 := ReplaceAll(s5, LINE3, LINE3_TEXT);
    assert ReplaceFrom(s5, 5, v) == s6;
    assert ReplaceFrom(s4, 4, v) == s6;
    assert ReplaceFrom(s3, 3, v) == s6;
    assert ReplaceFrom(s2, 2, v) == s6;
    assert ReplaceFrom(s1, 1, v) == s6;
  }

  lemma {:induction false} LayoutIsStageZero(parts: seq<string>, slots: seq<Slot>, v: Values)
    requires |parts| == |slots| + 1
    ensures Layout(parts, slots) == Staged(parts, slots, 0, v)
    decreases |slots|
  {
    if slots != [] {
      LayoutIsStageZero(parts[1..], slots[1..], v);
    }
  }

  lemma {:induction false} FilledIsStageSix(parts: seq<string>, slots: seq<Slot>, v: Values)
    requires |parts| == |slots| + 1
    ensures Filled(parts, slots, v) == Staged(parts, slots, 6, v)
    decreases |slots|
  {
    if slots != [] {
      FilledIsStageSix(parts[1..], slots[1..], v);
    }
  }

  /** Where no occurrence of `pat` starts inside `a`, `ReplaceAll` copies `a` through. */
  lemma {:induction false} ReplaceAllKeep(a: string, b: string, pat: string, rep: string)
    requires pat != ""
    requires forall i :: 0 <= i < |a| ==> !MatchAt(a + b, pat, i)
    ensures ReplaceAll(a + b, pat, rep) == a + ReplaceAll(b, pat, rep)
    decreases |a|
  {
    if a == [] {
      assert a + b == b;
    } else {
      var s := a + b;
      if |s| < |pat| {
        assert ReplaceAll(b, pat, rep) == b;
      } else {
        assert !MatchAt(s, pat, 0);
        assert s[1..] == a[1..] + b;
        forall i | 0 <= i < |a[1..]|
          ensures !MatchAt(a[1..] + b, pat, i)
        {
          assert !MatchAt(s, pat, i + 1);
          if i + |pat| <= |s[1..]| {
            assert s[1..][i..i + |pat|] == s[i + 1..i + 1 + |pat|];
          }
        }
        ReplaceAllKeep(a[1..], b, pat, rep);
        assert a == [a[0]] + a[1..];
      }
    }
  }

  /** A match inside the tail of `a + b` is a match of the whole, shifted by `|a|`. */
  lemma MatchShift(a: string, b: string, pat: string, i: int)
    requires 0 <= i
    ensures MatchAt(b, pat, i) <==> MatchAt(a + b, pat, i + |a|)
  {
    if 0 <= i && i + |pat| <= |b| {
      assert (a + b)[i + |a|..i + |a| + |pat|] == b[i..i + |pat|];
    }
  }

  /** A mismatch at offset `k` of the pattern rules out a match at `i`. */
  lemma NoMatchAt(s: string, pat: string, i: int, k: int)
    requires 0 <= k < |pat|
    requires 0 <= i + k < |s| ==> s[i + k] != pat[k]
    ensures !MatchAt(s, pat, i)
  {
    if 0 <= i && i + |pat| <= |s| {
      assert s[i..i + |pat|][k] == s[i + k];
    }
  }

  lemma {:induction false} SlotAtAfter(parts: seq<string>, slots: seq<Slot>, j: nat, v: Values, i: int)
    requires |parts| == |slots| + 1
    requires i < |parts[0]|
    ensures !SlotAt(parts, slots, j, v, i)
    decreases |slots|
  {
    if slots != [] {
      SlotAtAfter(parts[1..], slots[1..], j, v, i - |parts[0]| - |Shown(slots[0], j, v)|);
    }
  }

  /** Alignment at stage `j` carries over to the text after the first piece and slot. */
  lemma OnlyAtSlotsTail(parts: seq<string>, slots: seq<Slot>, j: nat, v: Values)
    requires |parts| == |slots| + 1 && slots != [] && j < 6
    requires OnlyAtSlots(parts, slots, j, v)
    ensures OnlyAtSlots(parts[1..], slots[1..], j, v)
  {
    var p := Placeholder(SlotOfStep(j));
    var ax := parts[0] + Shown(slots[0], j, v);
    var r := Staged(parts[1..], slots[1..], j, v);
    assert Staged(parts, slots, j, v) == ax + r;
    forall i | 0 <= i && !SlotAt(parts[1..], slots[1..], j, v, i)
      ensures !MatchAt(r, p, i)
    {
      MatchShift(ax, r, p, i);
      assert !SlotAt(parts, slots, j, v, i + |ax|);
    }
  }

  /** Replacement `j` on the first slot's text and what follows it. */
  lemma HeadReplace(parts: seq<string>, slots: seq<Slot>, j: nat, v: Values)
    requires |parts| == |slots| + 1 && slots != [] && j < 6
    requires OnlyAtSlots(parts, slots, j, v)
    ensures ReplaceAll(Shown(slots[0], j, v) + Staged(parts[1..], slots[1..], j, v),
                       Placeholder(SlotOfStep(j)), Value(SlotOfStep(j), v))
         == Shown(slots[0], j + 1, v)
          + ReplaceAll(Staged(parts[1..], slots[1..], j, v), Placeholder(SlotOfStep(j)), Value(SlotOfStep(j), v))
  {
    var p, rep := Placeholder(SlotOfStep(j)), Value(SlotOfStep(j), v);
    var a, x := parts[0], Shown(slots[0], j, v);
    var r := Staged(parts[1..], slots[1..], j, v);
    if Step(slots[0]) == j {
      assert slots[0] == SlotOfStep(j);
      assert (x + r)[..|p|] == p && (x + r)[|p|..] == r;
      ReplaceAllHit(x + r, p, rep);
    } else {
      assert Staged(parts, slots, j, v) == a + (x + r);
      forall i | 0 <= i < |x|
        ensures !MatchAt(x + r, p, i)
      {
        MatchShift(a, x + r, p, i);
        SlotAtAfter(parts[1..], slots[1..], j, v, i - |x|);
        assert !SlotAt(parts, slots, j, v, i + |a|);
      }
      ReplaceAllKeep(x, r, p, rep);
    }
  }

  /** Under alignment no occurrence of the placeholder starts inside the first piece. */
  lemma FirstPieceClear(parts: seq<string>, slots: seq<Slot>, j: nat, v: Values)
    requires |parts| == |slots| + 1 && j < 6
    requires OnlyAtSlots(parts, slots, j, v)
    ensures forall i :: 0 <= i < |parts[0]| ==>
      !MatchAt(Staged(parts, slots, j, v), Placeholder(SlotOfStep(j)), i)
  {
    forall i | 0 <= i < |parts[0]|
      ensures !MatchAt(Staged(parts, slots, j, v), Placeholder(SlotOfStep(j)), i)
    {
      SlotAtAfter(parts, slots, j, v, i);
    }
  }

  lemma Regroup(a: string, b: string, c: string)
    ensures (a + b) + c == a + (b + c)
  {
  }

  /** The stage-`j` text splits into the first piece, the first slot and the rest. */
  lemma StagedCons(parts: seq<string>, slots: seq<Slot>, j: nat, v: Values)
    requires |parts| == |slots| + 1 && slots != []
    ensures Staged(parts, slots, j, v)
         == parts[0] + (Shown(slots[0], j, v) + Staged(parts[1..], slots[1..], j, v))
  {
    Regroup(parts[0], Shown(slots[0], j, v), Staged(parts[1..], slots[1..], j, v));
  }

  /** Replacement `j` on the last piece, once no slot is left. */
  lemma ReplaceStepLast(parts: seq<string>, slots: seq<Slot>, j: nat, v: Values)
    requires |parts| == |slots| + 1 && slots == [] && j < 6
    requires OnlyAtSlots(parts, slots, j, v)
    ensures ReplaceAll(Staged(parts, slots, j, v), Placeholder(SlotOfStep(j)), Value(SlotOfStep(j), v))
         == Staged(parts, slots, j + 1, v)
  {
    var a := parts[0];
    FirstPieceClear(parts, slots, j, v);
    assert a + [] == a == Staged(parts, slots, j, v);
    ReplaceAllKeep(a, [], Placeholder(SlotOfStep(j)), Value(SlotOfStep(j), v));
  }

  /** One replacement of the chain turns stage `j` into stage `j + 1` when its
      placeholder occurs only at its slots. */
  lemma {:induction false} ReplaceStep(parts: seq<string>, slots: seq<Slot>, j: nat, v: Values)
    requires |parts| == |slots| + 1 && j < 6
    requires OnlyAtSlots(parts, slots, j, v)
    ensures ReplaceAll(Staged(parts, slots, j, v), Placeholder(SlotOfStep(j)), Value(SlotOfStep(j), v))
         == Staged(parts, slots, j + 1, v)
    decreases |slots|
  {
    if slots == [] {
      ReplaceStepLast(parts, slots, j, v);
    } else {
      var p, rep := Placeholder(SlotOfStep(j)), Value(SlotOfStep(j), v);
      var a, x := parts[0], Shown(slots[0], j, v);
      var r := Staged(parts[1..], slots[1..], j, v);
      StagedCons(parts, slots, j, v);
      StagedCons(parts, slots, j + 1, v);
      FirstPieceClear(parts, slots, j, v);
      OnlyAtSlotsTail(parts, slots, j, v);
      ReplaceStep(parts[1..], slots[1..], j, v);
      ReplaceAllKeep(a, x + r, p, rep);
      HeadReplace(parts, slots, j, v);
    }
  }

  /** The rest of the chain, from stage `j`, ends at stage 6 when every remaining
      replacement finds its placeholder only at its slots. */
  lemma {:induction false} ReplaceFromStaged(parts: seq<string>, slots: seq<Slot>, j: nat, v: Values)
    requires |parts| == |slots| + 1 && j <= 6
    requires forall k :: j <= k < 6 ==> OnlyAtSlots(parts, slots, k, v)
    ensures ReplaceFrom(Staged(parts, slots, j, v), j, v) == Staged(parts, slots, 6, v)
    decreases 6 - j
  {
    if j < 6 {
      ReplaceStep(parts, slots, j, v);
      ReplaceFromStaged(parts, slots, j + 1, v);
    }
  }

  /** The six chained replacements fill every slot with its value whenever each
      placeholder, at its turn, occurs only at its own slots. */
  lemma SubstituteAligned(parts: seq<string>, slots: seq<Slot>, v: Values)
    requires |parts| == |slots| + 1
    requires forall k :: 0 <= k < 6 ==> OnlyAtSlots(parts, slots, k, v)
    ensures Substitute(Layout(parts, slots), v.token, v.avatarId, v.voiceId) == Filled(parts, slots, v)
  {
    SubstituteIsReplaceFrom(Layout(parts, slots), v);
    LayoutIsStageZero(parts, slots, v);
    ReplaceFromStaged(parts, slots, 0, v);
    FilledIsStageSix(parts, slots, v);
  }

  // ---------------------------------------------------------------- tidy text keeps slots aligned

  /** The shape every placeholder shares: `__`, a name, `__`. */
  lemma PlaceholderShape(s: Slot)
    ensures 9 <= |Placeholder(s)|
    ensures Placeholder(s)[0] == '_' && Placeholder(s)[1] == '_'
    ensures Placeholder(s)[|Placeholder(s)| - 2] == '_' && Placeholder(s)[|Placeholder(s)| - 1] == '_'
    ensures forall k :: 2 <= k < |Placeholder(s)| ==> NameChar(Placeholder(s)[k])
    ensures forall k :: 1 <= k <= |Placeholder(s)| - 3 ==>
      !(Placeholder(s)[k] == '_' && Placeholder(s)[k + 1] == '_')
  {
  }

  /** Two different placeholders already differ in their first nine characters. */
  lemma PlaceholdersDiffer(s: Slot, t: Slot) returns (k: int)
    requires s != t
    ensures k == 2 || k == 6
    ensures Placeholder(s)[k] != Placeholder(t)[k]
  {
    if Placeholder(s)[2] != Placeholder(t)[2] {
      k := 2;
    } else {
      k := 6;
    }
  }

  /** The texts the page inserts for the three lines hold no underscore. */
  lemma ValueTidy(s: Slot, v: Values)
    requires Tidy(v.token) && Tidy(v.avatarId) && Tidy(v.voiceId)
    ensures Tidy(Value(s, v))
  {
  }

  /** No placeholder starts inside tidy text, whatever follows it. */
  lemma TidyNoStart(a: string, rest: string, pat: string, i: int)
    requires Tidy(a) && |pat| >= 2 && pat[0] == '_' && pat[1] == '_'
    requires 0 <= i < |a|
    ensures !MatchAt(a + rest, pat, i)
  {
    if i + 1 < |a| {
      if a[i] == '_' {
        NoMatchAt(a + rest, pat, i, 1);
      } else {
        NoMatchAt(a + rest, pat, i, 0);
      }
    } else {
      NoMatchAt(a + rest, pat, i, 0);
    }
  }

  /** A placeholder cannot start in the closing `__` of another slot's placeholder when
      a piece with a break, or the tidy final piece, follows that slot. */
  lemma ClosingNoStart(q: string, piece: string, rest: string, pat: string, t: int, last: bool)
    requires 9 <= |pat| && pat[0] == '_' && pat[1] == '_'
    requires pat[|pat| - 2] == '_' && pat[|pat| - 1] == '_'
    requires forall k :: 2 <= k < |pat| ==> NameChar(pat[k])
    requires |q| >= 2 && (t == |q| - 2 || t == |q| - 1)
    requires Tidy(piece)
    requires last ==> rest == []
    requires !last ==> HasBreak(piece)
    ensures !MatchAt(q + (piece + rest), pat, t)
  {
    var s := q + (piece + rest);
    if t == |q| - 1 {
      if piece != [] {
        assert s[t + 1] == piece[0];
        NoMatchAt(s, pat, t, 1);
      } else {
        assert |s| == |q|;
        NoMatchAt(s, pat, t, 1);
      }
    } else if last {
      if |piece| >= |pat| - 2 {
        assert s[t + |pat| - 2] == piece[|pat| - 4];
        assert s[t + |pat| - 1] == piece[|pat| - 3];
        if piece[|pat| - 4] == '_' {
          NoMatchAt(s, pat, t, |pat| - 1);
        } else {
          NoMatchAt(s, pat, t, |pat| - 2);
        }
      } else {
        assert |s| == |q| + |piece|;
        NoMatchAt(s, pat, t, |pat| - 1);
      }
    } else {
      var m :| 0 <= m < |piece| && !NameChar(piece[m]);
      if m <= |pat| - 3 {
        assert s[t + m + 2] == piece[m];
        NoMatchAt(s, pat, t, m + 2);
      } else {
        assert s[t + |pat| - 2] == piece[|pat| - 4];
        assert s[t + |pat| - 1] == piece[|pat| - 3];
        if piece[|pat| - 4] == '_' {
          NoMatchAt(s, pat, t, |pat| - 1);
        } else {
          NoMatchAt(s, pat, t, |pat| - 2);
        }
      }
    }
  }

  /** A placeholder that stays in the text at stage `j` is not where the `j`-th
      placeholder starts unless it is that one, at its first character. */
  lemma SlotNoStart(s0: Slot, j: nat, piece: string, rest: string, t: int, last: bool)
    requires j < 6 && Step(s0) >= j
    requires 0 <= t < |Placeholder(s0)|
    requires t == 0 ==> Step(s0) != j
    requires Tidy(piece)
    requires last ==> rest == []
    requires !last ==> HasBreak(piece)
    ensures !MatchAt(Placeholder(s0) + (piece + rest), Placeholder(SlotOfStep(j)), t)
  {
    var q, p := Placeholder(s0), Placeholder(SlotOfStep(j));
    var s := q + (piece + rest);
    PlaceholderShape(s0);
    PlaceholderShape(SlotOfStep(j));
    if t == 0 {
      var k := PlaceholdersDiffer(s0, SlotOfStep(j));
      assert s[k] == q[k];
      NoMatchAt(s, p, t, k);
    } else if t <= |q| - 3 {
      assert s[t] == q[t] && s[t + 1] == q[t + 1];
      if q[t] == '_' {
        NoMatchAt(s, p, t, 1);
      } else {
        NoMatchAt(s, p, t, 0);
      }
    } else {
      ClosingNoStart(q, piece, rest, p, t, last);
    }
  }

  /** The text around the slots keeps every replacement on its own slots: pieces and
      inserted values are tidy, and each piece between two slots holds a break. */
  predicate TidyAround(parts: seq<string>, slots: seq<Slot>, j: nat, v: Values)
    requires |parts| == |slots| + 1
  {
    && (forall k :: 0 <= k < |parts| ==> Tidy(parts[k]))
    && (forall k :: 1 <= k < |slots| ==> HasBreak(parts[k]))
    && (forall k :: 0 <= k < |slots| && Step(slots[k]) < j ==> Tidy(Value(slots[k], v)))
  }

  lemma TidyAroundTail(parts: seq<string>, slots: seq<Slot>, j: nat, v: Values)
    requires |parts| == |slots| + 1 && slots != []
    requires TidyAround(parts, slots, j, v)
    ensures TidyAround(parts[1..], slots[1..], j, v)
  {
    var tp, ts := parts[1..], slots[1..];
    forall k | 0 <= k < |ts| && Step(ts[k]) < j
      ensures Tidy(Value(ts[k], v))
    {
      assert ts[k] == slots[k + 1];
    }
    forall k | 1 <= k < |ts|
      ensures HasBreak(tp[k])
    {
      assert tp[k] == parts[k + 1];
    }
  }

  /** No stray placeholder starts inside a slot that is still unfilled at stage `j`. */
  lemma HeadSlotNoStart(parts: seq<string>, slots: seq<Slot>, j: nat, v: Values, t: int)
    requires |parts| == |slots| + 1 && slots != [] && j < 6
    requires TidyAround(parts, slots, j, v)
    requires Step(slots[0]) >= j && 0 <= t < |Placeholder(slots[0])|
    requires t == 0 ==> Step(slots[0]) != j
    ensures !MatchAt(Placeholder(slots[0]) + Staged(parts[1..], slots[1..], j, v), Placeholder(SlotOfStep(j)), t)
  {
    var tp, ts := parts[1..], slots[1..];
    var r := Staged(tp, ts, j, v);
    assert Tidy(tp[0]);
    if ts == [] {
      assert r == tp[0] + [];
      SlotNoStart(slots[0], j, tp[0], [], t, true);
    } else {
      assert HasBreak(tp[0]);
      assert r == tp[0] + (Shown(ts[0], j, v) + Staged(tp[1..], ts[1..], j, v));
      SlotNoStart(slots[0], j, tp[0], Shown(ts[0], j, v) + Staged(tp[1..], ts[1..], j, v), t, false);
    }
  }

  /** With tidy text around the slots, no stray placeholder starts in the first piece
      or the first slot. */
  lemma TidyHeadNoStart(parts: seq<string>, slots: seq<Slot>, j: nat, v: Values, i: int)
    requires |parts| == |slots| + 1 && slots != [] && j < 6
    requires TidyAround(parts, slots, j, v)
    requires 0 <= i < |parts[0]| + |Shown(slots[0], j, v)|
    requires !SlotAt(parts, slots, j, v, i)
    ensures !MatchAt(parts[0] + (Shown(slots[0], j, v) + Staged(parts[1..], slots[1..], j, v)),
                     Placeholder(SlotOfStep(j)), i)
  {
    var p := Placeholder(SlotOfStep(j));
    PlaceholderShape(SlotOfStep(j));
    var a, x, r := parts[0], Shown(slots[0], j, v), Staged(parts[1..], slots[1..], j, v);
    assert Tidy(a);
    if i < |a| {
      TidyNoStart(a, x + r, p, i);
    } else {
      MatchShift(a, x + r, p, i - |a|);
      if Step(slots[0]) < j {
        assert Tidy(Value(slots[0], v));
        TidyNoStart(x, r, p, i - |a|);
      } else {
        HeadSlotNoStart(parts, slots, j, v, i - |a|);
      }
    }
  }

  /** Past the first slot, alignment of the rest gives alignment of the whole. */
  lemma AlignedFromTail(parts: seq<string>, slots: seq<Slot>, j: nat, v: Values, i: int)
    requires |parts| == |slots| + 1 && slots != [] && j < 6
    requires OnlyAtSlots(parts[1..], slots[1..], j, v)
    requires |parts[0]| + |Shown(slots[0], j, v)| <= i && !SlotAt(parts, slots, j, v, i)
    ensures !MatchAt(Staged(parts, slots, j, v), Placeholder(SlotOfStep(j)), i)
  {
    var ax := parts[0] + Shown(slots[0], j, v);
    var r := Staged(parts[1..], slots[1..], j, v);
    assert Staged(parts, slots, j, v) == ax + r;
    assert !SlotAt(parts[1..], slots[1..], j, v, i - |ax|);
    MatchShift(ax, r, Placeholder(SlotOfStep(j)), i - |ax|);
  }

  /** The last piece, once no slot is left, is tidy and so holds no placeholder. */
  lemma TidyAlignedLast(parts: seq<string>, slots: seq<Slot>, j: nat, v: Values)
    requires |parts| == |slots| + 1 && slots == [] && j < 6
    requires TidyAround(parts, slots, j, v)
    ensures OnlyAtSlots(parts, slots, j, v)
  {
    var p, a := Placeholder(SlotOfStep(j)), parts[0];
    PlaceholderShape(SlotOfStep(j));
    assert Tidy(a);
    forall i | 0 <= i && !SlotAt(parts, slots, j, v, i)
      ensures !MatchAt(Staged(parts, slots, j, v), p, i)
    {
      assert a + [] == a == Staged(parts, slots, j, v);
      if i < |a| {
        TidyNoStart(a, [], p, i);
      }
    }
  }

  /** Tidy text around the slots keeps each replacement on its own slots. */
  lemma {:induction false} TidyAligned(parts: seq<string>, slots: seq<Slot>, j: nat, v: Values)
    requires |parts| == |slots| + 1 && j < 6
    requires TidyAround(parts, slots, j, v)
    ensures OnlyAtSlots(parts, slots, j, v)
    decreases |slots|
  {
    if slots == [] {
      TidyAlignedLast(parts, slots, j, v);
    } else {
      TidyAroundTail(parts, slots, j, v);
      TidyAligned(parts[1..], slots[1..], j, v);
      StagedCons(parts, slots, j, v);
      forall i | 0 <= i && !SlotAt(parts, slots, j, v, i)
        ensures !MatchAt(Staged(parts, slots, j, v), Placeholder(SlotOfStep(j)), i)
      {
        if i < |parts[0]| + |Shown(slots[0], j, v)| {
          TidyHeadNoStart(parts, slots, j, v, i);
        } else {
          AlignedFromTail(parts, slots, j, v, i);
        }
      }
    }
  }

  /** Concatenating tidy texts keeps them tidy. */
  lemma TidyConcat(a: string, b: string)
    requires Tidy(a) && Tidy(b)
    ensures Tidy(a + b)
  {
    var s := a + b;
    forall k | 0 <= k < |s| - 1
      ensures !(s[k] == '_' && s[k + 1] == '_')
    {
      if k + 1 < |a| {
        assert s[k] == a[k] && s[k + 1] == a[k + 1];
      } else if k + 1 == |a| {
        assert s[k] == a[|a| - 1];
      } else {
        assert s[k] == b[k - |a|] && s[k + 1] == b[k + 1 - |a|];
      }
    }
  }

  /** Tidy text holds no placeholder, since each placeholder opens with `__`. */
  lemma TidyNoPlaceholder(s: string)
    requires Tidy(s)
    ensures NoPlaceholder(s)
  {
    forall t: Slot, i | 0 <= i <= |s|
      ensures !MatchAt(s, Placeholder(t), i)
    {
      PlaceholderShape(t);
      assert s + [] == s;
      if i < |s| {
        TidyNoStart(s, [], Placeholder(t), i);
      }
    }
    assert Placeholder(TokenSlot) == TOKEN && Placeholder(AvatarSlot) == AVATAR_ID;
    assert Placeholder(VoiceSlot) == VOICE_ID && Placeholder(Line1Slot) == LINE1;
    assert Placeholder(Line2Slot) == LINE2 && Placeholder(Line3Slot) == LINE3;
  }

  lemma {:induction false} FilledTidy(parts: seq<string>, slots: seq<Slot>, v: Values)
    requires |parts| == |slots| + 1
    requires forall k :: 0 <= k < |parts| ==> Tidy(parts[k])
    requires Tidy(v.token) && Tidy(v.avatarId) && Tidy(v.voiceId)
    ensures Tidy(Filled(parts, slots, v))
    decreases |slots|
  {
    if slots != [] {
      assert forall k :: 0 <= k < |parts[1..]| ==> parts[1..][k] == parts[k + 1];
      FilledTidy(parts[1..], slots[1..], v);
      ValueTidy(slots[0], v);
      TidyConcat(parts[0], Value(slots[0], v));
      TidyConcat(parts[0] + Value(slots[0], v), Filled(parts[1..], slots[1..], v));
    }
  }

  /** For a template whose text around the slots is tidy (no `__`, no underscore at the
      ends of a piece) and whose pieces between two slots each hold a break, and for
      tidy values, the six replacements put each slot's value in its place and leave
      no placeholder behind. */
  lemma SubstituteFillsSlots(parts: seq<string>, slots: seq<Slot>, v: Values)
    requires |parts| == |slots| + 1
    requires forall k :: 0 <= k < |parts| ==> Tidy(parts[k])
    requires forall k :: 1 <= k < |slots| ==> HasBreak(parts[k])
    requires Tidy(v.token) && Tidy(v.avatarId) && Tidy(v.voiceId)
    ensures Substitute(Layout(parts, slots), v.token, v.avatarId, v.voiceId) == Filled(parts, slots, v)
    ensures NoPlaceholder(Substitute(Layout(parts, slots), v.token, v.avatarId, v.voiceId))
  {
    forall j | 0 <= j < 6
      ensures OnlyAtSlots(parts, slots, j, v)
    {
      forall k | 0 <= k < |slots| && Step(slots[k]) < j
        ensures Tidy(Value(slots[k], v))
      {
        ValueTidy(slots[k], v);
      }
      TidyAligned(parts, slots, j, v);
    }
    SubstituteAligned(parts, slots, v);
    FilledTidy(parts, slots, v);
    TidyNoPlaceholder(Filled(parts, slots, v));
  }

  /** A text that is exactly the pattern becomes exactly the replacement. */
  lemma ReplaceWhole(pat: string, rep: string)
    requires pat != ""
    ensures ReplaceAll(pat, pat, rep) == rep
  {
    assert pat[..|pat|] == pat && pat[|pat|..] == [];
    ReplaceAllHit(pat, pat, rep);
    assert rep + [] == rep;
  }

  /** The text `u + __VOICE_ID__ + w` as one voice slot between two pieces, before and
      after its replacement. */
  lemma VoiceBetween(u: string, w: string, v: Values)
    requires Tidy(u) && Tidy(w) && Tidy(v.voiceId)
    ensures Staged([u, w], [VoiceSlot], 1, v) == u + VOICE_ID + w
    ensures Staged([u, w], [VoiceSlot], 6, v) == u + v.voiceId + w
    ensures forall j :: 1 <= j < 6 ==> OnlyAtSlots([u, w], [VoiceSlot], j, v)
  {
    var parts, slots := [u, w], [VoiceSlot];
    assert parts[1..] == [w] && slots[1..] == [];
    forall j | 1 <= j < 6
      ensures OnlyAtSlots(parts, slots, j, v)
    {
      TidyAligned(parts, slots, j, v);
    }
  }

  /** Chained replacement rewrites inside a value already inserted: a token that holds
      `__VOICE_ID__` between tidy text has that part replaced by the voice id. */
  lemma LaterReplaceRewritesValue(u: string, w: string, v: Values)
    requires Tidy(u) && Tidy(w) && Tidy(v.voiceId)
    requires v.token == u + VOICE_ID + w
    ensures Substitute(TOKEN, v.token, v.avatarId, v.voiceId) == u + v.voiceId + w
  {
    SubstituteIsReplaceFrom(TOKEN, v);
    ReplaceWhole(TOKEN, v.token);
    assert SlotOfStep(0) == TokenSlot;
    assert ReplaceFrom(TOKEN, 0, v) == ReplaceFrom(v.token, 1, v);
    VoiceBetween(u, w, v);
    ReplaceFromStaged([u, w], [VoiceSlot], 1, v);
  }
}
