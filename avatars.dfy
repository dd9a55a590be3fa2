/** Normalisation of the avatar-list payload into deduplicated dropdown choices. */
module Avatars {
  import opened Payload

  const ACTIVE := "ACTIVE"

  /** `payload.get("data") or []`: an absent, null or empty list reads as no items. */
  function Items(p: AvatarListPayload): seq<AvatarItem>
  {
    if p.data.Some? then p.data.value else []
  }

  predicate IsActive(a: AvatarItem)
  {
    a.status == Some(ACTIVE)
  }

  /** `a.get("pose_name") or a.get("avatar_id")` */
  function LabelOf(a: AvatarItem): Option<string>
  {
    if Truthy(a.poseName) then a.poseName else a.avatarId
  }

  /** The intended dropdown entry for item `a`: keyed by its id, labelled by
      its pose name, or by the id itself when the pose name is missing or empty. */
  predicate Describes(c: Choice, a: AvatarItem)
  {
    && a.avatarId == Some(c.id)
    && c.id != ""
    && c.title == (if Truthy(a.poseName) then a.poseName.value else c.id)
  }

  function Ids(s: seq<Choice>): set<string>
  {
    set c | c in s :: c.id
  }

  predicate DistinctIds(s: seq<Choice>)
  {
    forall i, j :: 0 <= i < j < |s| ==> s[i].id != s[j].id
  }

  /** No entry before position `k` carries the id of entry `k`. */
  predicate FirstOfId(s: seq<Choice>, k: int)
    requires 0 <= k < |s|
  {
    forall j :: 0 <= j < k ==> s[j].id != s[k].id
  }

  /** The ACTIVE filter as a list comprehension, in input order. */
  function ActiveItems(items: seq<AvatarItem>): seq<AvatarItem>
  {
    if items == [] then []
    else
      var init, last := items[..|items| - 1], items[|items| - 1];
      ActiveItems(init) + (if IsActive(last) then [last] else [])
  }

  /** The filter keeps exactly the items whose status is "ACTIVE". */
  lemma {:induction false} ActiveItemsMembers(items: seq<AvatarItem>)
    ensures |ActiveItems(items)| <= |items|
    ensures forall a :: a in ActiveItems(items) <==> a in items && IsActive(a)
  {
    if items != [] {
      var init, last := items[..|items| - 1], items[|items| - 1];
      assert items == init + [last];
      ActiveItemsMembers(init);
    }
  }

  /** What one pass of the pair-building loop appends for item `a`. */
  function OptionOf(a: AvatarItem): (r: seq<Choice>)
    ensures |r| <= 1
    ensures r != [] <==> Truthy(a.avatarId)
    ensures forall c :: c in r ==> Describes(c, a)
  {
    var title, aid := LabelOf(a), a.avatarId;
    if Truthy(aid) && Truthy(title) then [Choice(title.value, aid.value)] else []
  }

  /** The list the pair-building loop produces, one item after another. */
  function Options(items: seq<AvatarItem>): seq<Choice>
  {
    if items == [] then []
    else
      var init, last := items[..|items| - 1], items[|items| - 1];
      Options(init) + OptionOf(last)
  }

  /** The pairs built are exactly the intended entries of the items that have an id. */
  lemma {:induction false} OptionsMembers(items: seq<AvatarItem>)
    ensures |Options(items)| <= |items|
    ensures forall c :: c in Options(items) <==> exists a :: a in items && Truthy(a.avatarId) && Describes(c, a)
  {
    if items != [] {
      var init, last := items[..|items| - 1], items[|items| - 1];
      assert items == init + [last];
      OptionsMembers(init);
      assert forall c :: c in OptionOf(last) <==> Truthy(last.avatarId) && Describes(c, last) by {
        if Truthy(last.avatarId) {
          var c0 := OptionOf(last)[0];
          assert forall c :: Describes(c, last) ==> c == c0;
        }
      }
    }
  }

  /** The list the dedup loop produces: an entry is kept unless an earlier one has its id. */
  function Dedup(s: seq<Choice>): seq<Choice>
  {
    if s == [] then []
    else
      var init, last := s[..|s| - 1], s[|s| - 1];
      if last.id in Ids(init) then Dedup(init) else Dedup(init) + [last]
  }

  /** Deduplication keeps only input entries, loses no id, and leaves no id twice. */
  lemma {:induction false} DedupFacts(s: seq<Choice>)
    ensures |Dedup(s)| <= |s|
    ensures forall c :: c in Dedup(s) ==> c in s
    ensures Ids(Dedup(s)) == Ids(s)
    ensures DistinctIds(Dedup(s))
  {
    if s != [] {
      var init, last := s[..|s| - 1], s[|s| - 1];
      assert s == init + [last];
      IdsAppend(init, [last]);
      DedupFacts(init);
      var d := Dedup(init);
      if last.id !in Ids(init) {
        IdsAppend(d, [last]);
      }
    }
  }

  /** The pairs built from the ACTIVE items, before deduplication. */
  function Eligibles(items: seq<AvatarItem>): seq<Choice>
  {
    Options(ActiveItems(items))
  }

  /** The choices `fetch_interactive_avatars` returns for a payload. */
  function Normalised(p: AvatarListPayload): seq<Choice>
  {
    Dedup(Eligibles(Items(p)))
  }

  /** Item `k` is ACTIVE, has an id, and no earlier ACTIVE item has that id. */
  predicate FirstEligible(items: seq<AvatarItem>, k: int)
    requires 0 <= k < |items|
  {
    && IsActive(items[k])
    && Truthy(items[k].avatarId)
    && forall j :: 0 <= j < k && IsActive(items[j]) ==> items[j].avatarId != items[k].avatarId
  }

  lemma IdsAppend(a: seq<Choice>, b: seq<Choice>)
    ensures Ids(a + b) == Ids(a) + Ids(b)
  {
    assert forall c :: c in a + b <==> c in a || c in b;
  }

  lemma FirstAtEnd(s: seq<Choice>)
    requires s != []
    ensures FirstOfId(s, |s| - 1) <==> s[|s| - 1].id !in Ids(s[..|s| - 1])
  {
    var init := s[..|s| - 1];
    assert forall c :: c in init <==> exists j :: 0 <= j < |init| && init[j] == c;
  }

  /** The first entry carrying a given id always survives deduplication. */
  lemma {:induction false} DedupKeepsFirst(s: seq<Choice>, k: int)
    requires 0 <= k < |s| && FirstOfId(s, k)
    ensures s[k] in Dedup(s)
  {
    var init, last := s[..|s| - 1], s[|s| - 1];
    assert s == init + [last];
    DedupStep(init, last);
    FirstAtEnd(s);
    if k < |s| - 1 {
      assert FirstOfId(init, k);
      DedupKeepsFirst(init, k);
    }
  }

  /** Every surviving entry is the first entry carrying its id. */
  lemma {:induction false} DedupOnlyFirsts(s: seq<Choice>, c: Choice)
    requires c in Dedup(s)
    ensures exists k :: 0 <= k < |s| && FirstOfId(s, k) && s[k] == c
  {
    var init, last := s[..|s| - 1], s[|s| - 1];
    assert s == init + [last];
    DedupStep(init, last);
    FirstAtEnd(s);
    if c in Dedup(init) {
      DedupOnlyFirsts(init, c);
      var k :| 0 <= k < |init| && FirstOfId(init, k) && init[k] == c;
      assert FirstOfId(s, k);
    } else {
      assert FirstOfId(s, |s| - 1) && s[|s| - 1] == c;
    }
  }

  /** A first occurrence other than the last entry is a first occurrence in the prefix. */
  lemma FirstInInit(s: seq<Choice>, k: int)
    requires 0 <= k < |s| - 1 && FirstOfId(s, k)
    ensures FirstOfId(s[..|s| - 1], k) && s[..|s| - 1][k] == s[k]
  {
  }

  /** When the last entry's id is new, it is the one appended by `Dedup`. */
  lemma FreshIndex(s: seq<Choice>, t: int, k: int)
    requires s != [] && s[|s| - 1].id !in Ids(s[..|s| - 1])
    requires 0 <= t < |Dedup(s)| && 0 <= k < |s| && Dedup(s)[t] == s[k]
    ensures t == |Dedup(s[..|s| - 1])| <==> k == |s| - 1
  {
    var init, last := s[..|s| - 1], s[|s| - 1];
    assert s == init + [last];
    DedupStep(init, last);
    var d := Dedup(init);
    DedupFacts(init);
    if t < |d| {
      assert d[t] in d;
      assert s[k].id in Ids(init);
    } else if k < |s| - 1 {
      assert s[k] in init;
    }
  }

  /** Surviving entries keep the order in which their ids were first seen. */
  lemma {:induction false} DedupOrder(s: seq<Choice>, i: int, j: int, k1: int, k2: int)
    requires 0 <= i < |Dedup(s)| && 0 <= j < |Dedup(s)|
    requires 0 <= k1 < |s| && 0 <= k2 < |s| && FirstOfId(s, k1) && FirstOfId(s, k2)
    requires Dedup(s)[i] == s[k1] && Dedup(s)[j] == s[k2]
    ensures i < j <==> k1 < k2
  {
    var init, last := s[..|s| - 1], s[|s| - 1];
    assert s == init + [last];
    DedupStep(init, last);
    FirstAtEnd(s);
    var d := Dedup(init);
    if last.id in Ids(init) {
      FirstInInit(s, k1);
      FirstInInit(s, k2);
      DedupOrder(init, i, j, k1, k2);
    } else {
      FreshIndex(s, i, k1);
      FreshIndex(s, j, k2);
      if i < |d| && j < |d| {
        FirstInInit(s, k1);
        FirstInInit(s, k2);
        DedupOrder(init, i, j, k1, k2);
      }
    }
  }

  lemma {:induction false} ActiveItemsAppend(a: seq<AvatarItem>, b: seq<AvatarItem>)
    ensures ActiveItems(a + b) == ActiveItems(a) + ActiveItems(b)
    decreases |b|
  {
    if b == [] {
      assert a + b == a;
    } else {
      var b', x := b[..|b| - 1], b[|b| - 1];
      assert b == b' + [x];
      assert (a + b)[..|a + b| - 1] == a + b';
      ActiveItemsAppend(a, b');
    }
  }

  lemma {:induction false} OptionsAppend(a: seq<AvatarItem>, b: seq<AvatarItem>)
    ensures Options(a + b) == Options(a) + Options(b)
    decreases |b|
  {
    if b == [] {
      assert a + b == a;
    } else {
      var b', x := b[..|b| - 1], b[|b| - 1];
      assert b == b' + [x];
      assert (a + b)[..|a + b| - 1] == a + b';
      OptionsAppend(a, b');
    }
  }

  lemma EligiblesAppend(a: seq<AvatarItem>, b: seq<AvatarItem>)
    ensures Eligibles(a + b) == Eligibles(a) + Eligibles(b)
  {
    ActiveItemsAppend(a, b);
    OptionsAppend(ActiveItems(a), ActiveItems(b));
  }

  /** The pairs of a prefix, the pair of item `k`, then the pairs of the rest. */
  lemma EligiblesSplit(items: seq<AvatarItem>, k: int)
    requires 0 <= k < |items| && IsActive(items[k])
    ensures Eligibles(items) == Eligibles(items[..k]) + OptionOf(items[k]) + Eligibles(items[k + 1..])
  {
    var pre, x, post := items[..k], items[k], items[k + 1..];
    assert items == (pre + [x]) + post;
    EligiblesAppend(pre + [x], post);
    EligiblesAppend(pre, [x]);
    assert [x][..0] == [];
    assert ActiveItems([x]) == [x];
    assert Options([x]) == OptionOf(x);
  }

  /** An ACTIVE item with an id has its pair right after the pairs of the items before it;
      when no earlier ACTIVE item has its id, no earlier pair has it either. */
  lemma EligibleEntry(items: seq<AvatarItem>, k: int)
    requires 0 <= k < |items| && IsActive(items[k]) && Truthy(items[k].avatarId)
    ensures |Eligibles(items[..k])| < |Eligibles(items)|
    ensures Describes(Eligibles(items)[|Eligibles(items[..k])|], items[k])
    ensures FirstEligible(items, k) ==> FirstOfId(Eligibles(items), |Eligibles(items[..k])|)
  {
    var pre := items[..k];
    EligiblesSplit(items, k);
    var e, m := Eligibles(items), |Eligibles(pre)|;
    assert e[m] == OptionOf(items[k])[0];
    assert e[m] in OptionOf(items[k]);
    if FirstEligible(items, k) {
      forall j | 0 <= j < m
        ensures e[j].id != e[m].id
      {
        assert e[j] == Eligibles(pre)[j];
        assert e[j] in Options(ActiveItems(pre));
        OptionsMembers(ActiveItems(pre));
        ActiveItemsMembers(pre);
        var a :| a in ActiveItems(pre) && Truthy(a.avatarId) && Describes(e[j], a);
        var q :| 0 <= q < k && pre[q] == a;
        assert items[q] == a;
      }
    }
  }

  /** Every returned choice was built from an ACTIVE item of the payload, keyed by
      its id and labelled by its pose name, or by its id when that is missing or empty. */
  lemma NormalisedSound(p: AvatarListPayload)
    ensures forall c :: c in Normalised(p) ==> exists a :: a in Items(p) && IsActive(a) && Describes(c, a)
  {
    ActiveItemsMembers(Items(p));
    OptionsMembers(ActiveItems(Items(p)));
    DedupFacts(Eligibles(Items(p)));
    forall c | c in Normalised(p)
      ensures exists a :: a in Items(p) && IsActive(a) && Describes(c, a)
    {
      var a :| a in ActiveItems(Items(p)) && Truthy(a.avatarId) && Describes(c, a);
    }
  }

  /** Every ACTIVE item with an id is represented: the only items dropped are
      inactive ones and those whose `avatar_id` is missing or empty. */
  lemma NormalisedComplete(p: AvatarListPayload)
    ensures forall a :: a in Items(p) && IsActive(a) && Truthy(a.avatarId) ==> a.avatarId.value in Ids(Normalised(p))
  {
    ActiveItemsMembers(Items(p));
    OptionsMembers(ActiveItems(Items(p)));
    DedupFacts(Eligibles(Items(p)));
    forall a | a in Items(p) && IsActive(a) && Truthy(a.avatarId)
      ensures a.avatarId.value in Ids(Normalised(p))
    {
      var c := OptionOf(a)[0];
      assert c in Eligibles(Items(p));
    }
  }

  /** For each id, the choice kept is the one built from the first ACTIVE item with that id. */
  lemma NormalisedKeepsFirst(p: AvatarListPayload, k: int)
    requires 0 <= k < |Items(p)| && FirstEligible(Items(p), k)
    ensures exists c :: c in Normalised(p) && Describes(c, Items(p)[k])
    ensures forall c :: c in Normalised(p) && c.id == Items(p)[k].avatarId.value ==> Describes(c, Items(p)[k])
  {
    var items := Items(p);
    var e := Eligibles(items);
    var m := |Eligibles(items[..k])|;
    EligibleEntry(items, k);
    DedupKeepsFirst(e, m);
    DedupFacts(e);
    forall c | c in Normalised(p) && c.id == items[k].avatarId.value
      ensures Describes(c, items[k])
    {
      var out := Normalised(p);
      var i :| 0 <= i < |out| && out[i] == c;
      var i' :| 0 <= i' < |out| && out[i'] == e[m];
      assert i == i';
    }
  }

  /** Choices appear in the order in which their ids first appear among the ACTIVE items. */
  lemma NormalisedOrder(p: AvatarListPayload, k1: int, k2: int, i: int, j: int)
    requires 0 <= k1 < k2 < |Items(p)| && FirstEligible(Items(p), k1) && FirstEligible(Items(p), k2)
    requires 0 <= i < |Normalised(p)| && Normalised(p)[i].id == Items(p)[k1].avatarId.value
    requires 0 <= j < |Normalised(p)| && Normalised(p)[j].id == Items(p)[k2].avatarId.value
    ensures i < j
  {
    var items := Items(p);
    var e, out := Eligibles(items), Normalised(p);
    var m1, m2 := |Eligibles(items[..k1])|, |Eligibles(items[..k2])|;
    EligibleEntry(items, k1);
    EligibleEntry(items, k2);
    assert m1 < m2 by {
      assert items[..k2] == items[..k1] + items[k1..k2];
      EligiblesAppend(items[..k1], items[k1..k2]);
      assert items[k1..k2] == items[k1..k2][..0] + items[k1..k2];
      EligibleEntry(items[k1..k2], 0);
    }
    var q1 := FirstSource(e, out, i);
    var q2 := FirstSource(e, out, j);
    FirstUnique(e, q1, m1);
    FirstUnique(e, q2, m2);
    DedupOrder(e, i, j, q1, q2);
  }

  /** The position in `e` of the first entry that the `i`th surviving entry stands for. */
  lemma FirstSource(e: seq<Choice>, out: seq<Choice>, i: int) returns (q: int)
    requires out == Dedup(e) && 0 <= i < |out|
    ensures 0 <= q < |e| && FirstOfId(e, q) && e[q] == out[i]
  {
    assert out[i] in out;
    DedupOnlyFirsts(e, out[i]);
    q :| 0 <= q < |e| && FirstOfId(e, q) && e[q] == out[i];
  }

  /** Every returned choice has a non-empty id and title, no two share an id,
      and there are never more choices than items in `data`. */
  lemma NormalisedWellFormed(p: AvatarListPayload)
    ensures |Normalised(p)| <= |Items(p)|
    ensures DistinctIds(Normalised(p))
    ensures forall c :: c in Normalised(p) ==> c.id != "" && c.title != ""
  {
    var options := Options(ActiveItems(Items(p)));
    ActiveItemsMembers(Items(p));
    OptionsMembers(ActiveItems(Items(p)));
    DedupFacts(options);
    forall c | c in Normalised(p)
      ensures c.id != "" && c.title != ""
    {
      assert c in options;
      var a :| a in ActiveItems(Items(p)) && Truthy(a.avatarId) && Describes(c, a);
    }
  }

  /** One pass of the pair-building loop, as a fact about `Options`. */
  lemma OptionsStep(s: seq<AvatarItem>, a: AvatarItem)
    ensures Options(s + [a]) == Options(s) + OptionOf(a)
  {
    assert (s + [a])[..|s|] == s;
  }

  /** Two first occurrences of the same id are the same entry. */
  lemma FirstUnique(s: seq<Choice>, q: int, m: int)
    requires 0 <= q < |s| && 0 <= m < |s| && FirstOfId(s, q) && FirstOfId(s, m)
    requires s[q].id == s[m].id
    ensures q == m
  {
  }

  /** One pass of the dedup loop, as a fact about `Dedup`. */
  lemma DedupStep(s: seq<Choice>, c: Choice)
    ensures Ids(s + [c]) == Ids(s) + {c.id}
    ensures Dedup(s + [c]) == if c.id in Ids(s) then Dedup(s) else Dedup(s) + [c]
  {
    assert (s + [c])[..|s|] == s;
    IdsAppend(s, [c]);
  }

  /** The pair-building loop: one `(label, id)` pair per item whose id and label are truthy. */
  method BuildOptions(items: seq<AvatarItem>) returns (options: seq<Choice>)
    ensures options == Options(items)
  {
    options := [];
    var i := 0;
    while i < |items|
      invariant 0 <= i <= |items|
      invariant options == Options(items[..i])
    {
      var a := items[i];
      var title := LabelOf(a);
      var aid := a.avatarId;
      if Truthy(aid) && Truthy(title) {
        options := options + [Choice(title.value, aid.value)];
      }
      assert items[..i + 1] == items[..i] + [a];
      OptionsStep(items[..i], a);
      i := i + 1;
    }
    assert items[..|items|] == items;
  }

  /** The dedup loop: a pair is appended unless its id is already in `seen`. */
  method DedupById(options: seq<Choice>) returns (deduped: seq<Choice>)
    ensures deduped == Dedup(options)
  {
    var seen: set<string> := {};
    deduped := [];
    var j := 0;
    while j < |options|
      invariant 0 <= j <= |options|
      invariant seen == Ids(options[..j])
      invariant deduped == Dedup(options[..j])
    {
      var c := options[j];
      assert options[..j + 1] == options[..j] + [c];
      DedupStep(options[..j], c);
      if c.id !in seen {
        seen := seen + {c.id};
        deduped := deduped + [c];
      }
      j := j + 1;
    }
    assert options[..|options|] == options;
  }

  /** Body of `fetch_interactive_avatars` after the HTTP call: filter, build pairs, deduplicate. */
  method FetchInteractiveAvatars(payload: AvatarListPayload) returns (deduped: seq<Choice>)
    ensures deduped == Normalised(payload)
    ensures payload.data.None? ==> deduped == []
    ensures |deduped| <= |Items(payload)|
    ensures DistinctIds(deduped)
    ensures forall c :: c in deduped ==> c.id != "" && c.title != ""
  {
    var items := Items(payload);
    items := ActiveItems(items);
    var options := BuildOptions(items);
    deduped := DedupById(options);
    NormalisedWellFormed(payload);
  }
}
