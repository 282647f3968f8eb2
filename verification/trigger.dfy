/**
 * `checkTriggerCondition`: whether a search should run for a query value.
 * A custom condition decides alone; otherwise the query must reach the
 * threshold length and hold something besides spaces.
 */
module Trigger {
  import opened Wrappers

  /** `config.trigger.condition` and `config.threshold`. */
  datatype TriggerConfig<V> = TriggerConfig(condition: Option<string -> V>, threshold: int)

  /**
   * The JavaScript value returned: the custom condition's own value, the
   * `false` of a failed length test, or the number of characters left once
   * the spaces are removed.
   */
  datatype Verdict<V> = Custom(value: V) | BelowThreshold | NonSpaceCount(count: nat)

  /** The truthiness of a verdict; `truthy` says it for the custom condition's values. */
  predicate Truthy<V>(r: Verdict<V>, truthy: V -> bool) {
    match r
    case Custom(v) => truthy(v)
    case BelowThreshold => false
    case NonSpaceCount(n) => n != 0
  }

  /** `replace(/ /g, "")`: removes U+0020 only, not other white space. */
  function WithoutSpaces(s: string): (r: string)
    ensures forall c :: c in r <==> c in s && c != ' '
    ensures |r| <= |s|
    ensures |r| == 0 <==> forall i | 0 <= i < |s| :: s[i] == ' '
  {
    if s == [] then ""
    else
      assert s == s[..|s| - 1] + [s[|s| - 1]];
      WithoutSpaces(s[..|s| - 1]) + (if s[|s| - 1] == ' ' then "" else [s[|s| - 1]])
  }

  /** Every character other than a space is kept as many times as it occurs, and every space is removed. */
  lemma {:induction false} WithoutSpacesCounts(s: string)
    ensures multiset(WithoutSpaces(s)) == multiset(s)[' ' := 0]
  {
    if s != [] {
      var init, last := s[..|s| - 1], s[|s| - 1];
      assert s == init + [last];
      WithoutSpacesCounts(init);
    }
  }

  function CheckTriggerCondition<V>(config: TriggerConfig<V>, queryValue: string): (r: Verdict<V>)
    ensures config.condition.Some? ==> r == Custom(config.condition.value(queryValue))
    ensures config.condition.None? ==> !r.Custom?
  {
    if config.condition.Some? then Custom(config.condition.value(queryValue))
    else if |queryValue| >= config.threshold then NonSpaceCount(|WithoutSpaces(queryValue)|)
    else BelowThreshold
  }

  /**
   * Without a custom condition, a query that reaches the threshold gets the
   * number of its characters that are not spaces, and a shorter one `false`.
   */
  lemma DefaultCount<V>(config: TriggerConfig<V>, queryValue: string)
    requires config.condition.None?
    ensures |queryValue| >= config.threshold ==>
      CheckTriggerCondition(config, queryValue) == NonSpaceCount(|queryValue| - multiset(queryValue)[' '])
    ensures |queryValue| < config.threshold ==> CheckTriggerCondition(config, queryValue) == BelowThreshold
  {
    var m := multiset(queryValue);
    WithoutSpacesCounts(queryValue);
    assert m == m[' ' := 0] + multiset{}[' ' := m[' ']];
  }

  /**
   * Without a custom condition the search fires exactly when the query is at
   * least `threshold` long and has a character other than a space.
   */
  lemma DefaultCondition<V>(config: TriggerConfig<V>, queryValue: string, truthy: V -> bool)
    requires config.condition.None?
    ensures Truthy(CheckTriggerCondition(config, queryValue), truthy) <==>
      |queryValue| >= config.threshold && exists i | 0 <= i < |queryValue| :: queryValue[i] != ' '
  {
  }
}
