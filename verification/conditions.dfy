/** Normalisation of provider condition codes (the `format_condition`
    helper of the weather platform).

    The condition map is an ordered table from a normalised condition name to
    the set of provider symbol codes meaning that condition. Order matters:
    the table is scanned from the front and the first set holding the code
    decides the name. A code held by no set passes through unchanged. */
module Conditions {

  /** Ordered (normalised name, provider codes) pairs, in the table's
      iteration order. */
  type ConditionMap = seq<(string, set<string>)>

  /** Entry `i` of the table lists `code`. */
  predicate Lists(cmap: ConditionMap, i: int, code: string)
  {
    0 <= i < |cmap| && code in cmap[i].1
  }

  /** Entry `i` is the first entry of the table that lists `code`. */
  predicate FirstListing(cmap: ConditionMap, i: int, code: string)
  {
    Lists(cmap, i, code) && forall k :: 0 <= k < i ==> code !in cmap[k].1
  }

  /** The normalised name of a provider code. */
  function FormatCondition(cmap: ConditionMap, code: string): (r: string)
    // a listed code gets the name of the first entry listing it
    ensures (exists i :: Lists(cmap, i, code)) ==>
              exists i :: FirstListing(cmap, i, code) && r == cmap[i].0
    ensures forall i :: FirstListing(cmap, i, code) ==> r == cmap[i].0
    // an unlisted code passes through unchanged
    ensures (forall i :: 0 <= i < |cmap| ==> code !in cmap[i].1) ==> r == code
    decreases |cmap|
  {
    if |cmap| == 0 then code
    else if code in cmap[0].1 then cmap[0].0
    else
      var r := FormatCondition(cmap[1..], code);
      assert forall i :: Lists(cmap[1..], i, code) ==> Lists(cmap, i + 1, code);
      assert forall i :: 0 < i && Lists(cmap, i, code) ==> Lists(cmap[1..], i - 1, code);
      r
  }

  /** Entries after the first listing entry have no influence: appending
      entries to a table that already lists the code keeps its name, and a
      code the front part does not list is named by the rest alone. */
  lemma {:induction false} FormatConditionAppend(front: ConditionMap, back: ConditionMap, code: string)
    ensures (exists i :: Lists(front, i, code)) ==>
              FormatCondition(front + back, code) == FormatCondition(front, code)
    ensures (forall i :: 0 <= i < |front| ==> code !in front[i].1) ==>
              FormatCondition(front + back, code) == FormatCondition(back, code)
    decreases |front|
  {
    if |front| == 0 {
      assert front + back == back;
    } else {
      assert (front + back)[0] == front[0];
      assert (front + back)[1..] == front[1..] + back;
      if code !in front[0].1 {
        FormatConditionAppend(front[1..], back, code);
        if exists i :: Lists(front, i, code) {
          var i :| Lists(front, i, code);
          assert Lists(front[1..], i - 1, code);
        }
      }
    }
  }
}
