/** Resolving the dropdown's selected title back to an avatar id. */
module Lookup {
  import opened Payload

  /** `[lbl for (lbl, _id) in avatar_choices]`: the entries the dropdown offers. */
  function Labels(choices: seq<Choice>): seq<string>
  {
    seq(|choices|, i requires 0 <= i < |choices| => choices[i].title)
  }

  /** `dict(avatar_choices)`: pairs inserted front to back, so a later pair
      with the same title overwrites an earlier one. */
  function ToDict(choices: seq<Choice>): (d: map<string, string>)
    ensures d.Keys == set c | c in choices :: c.title
  {
    if choices == [] then map[]
    else
      var init, last := choices[..|choices| - 1], choices[|choices| - 1];
      assert choices == init + [last];
      ToDict(init)[last.title := last.id]
  }

  /** `dict(avatar_choices)[label]`; a title the dict lacks would raise KeyError (None). */
  function LookupId(choices: seq<Choice>, title: string): Option<string>
  {
    var d := ToDict(choices);
    if title in d then Some(d[title]) else None
  }

  /** The lookup yields the id of the LAST pair carrying the title. */
  lemma {:induction false} LookupLastWins(choices: seq<Choice>, i: int)
    requires 0 <= i < |choices|
    requires forall j :: i < j < |choices| ==> choices[j].title != choices[i].title
    ensures LookupId(choices, choices[i].title) == Some(choices[i].id)
  {
    var init, last := choices[..|choices| - 1], choices[|choices| - 1];
    if i < |choices| - 1 {
      assert init[i] == choices[i];
      LookupLastWins(init, i);
    }
  }

  /** Every title the dropdown offers resolves (no KeyError), to the id of some pair
      with that title after which no pair carries it; any other title does not resolve. */
  lemma LookupResult(choices: seq<Choice>, title: string)
    ensures LookupId(choices, title).Some? <==> title in Labels(choices)
    ensures LookupId(choices, title).Some? ==>
      exists i :: 0 <= i < |choices| && choices[i] == Choice(title, LookupId(choices, title).value)
        && forall j :: i < j < |choices| ==> choices[j].title != title
  {
    if title in ToDict(choices) {
      var c :| c in choices && c.title == title;
      var k :| 0 <= k < |choices| && choices[k] == c;
      assert Labels(choices)[k] == title;
    }
    if title in Labels(choices) {
      var i := LastWithTitle(choices, title);
      LookupLastWins(choices, i);
    }
  }

  /** The position of the last pair carrying a title the dropdown offers. */
  lemma {:induction false} LastWithTitle(choices: seq<Choice>, title: string) returns (i: int)
    requires title in Labels(choices)
    ensures 0 <= i < |choices| && choices[i].title == title
    ensures forall j :: i < j < |choices| ==> choices[j].title != title
  {
    var init, last := choices[..|choices| - 1], choices[|choices| - 1];
    if last.title == title {
      i := |choices| - 1;
    } else {
      assert Labels(choices) == Labels(init) + [last.title];
      i := LastWithTitle(init, title);
    }
  }

  /** With pairwise distinct titles every pair's title maps back to its own id. */
  lemma LookupDistinctTitles(choices: seq<Choice>, i: int)
    requires forall j, k :: 0 <= j < k < |choices| ==> choices[j].title != choices[k].title
    requires 0 <= i < |choices|
    ensures LookupId(choices, choices[i].title) == Some(choices[i].id)
  {
    LookupLastWins(choices, i);
  }
}
