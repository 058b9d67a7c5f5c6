/** The configuration of a codebreaker contest: the values an administrator may
    supply, the defaults, the per-key validators, the per-entry check that
    `validate` performs, and the effective configuration a format instance
    works with (the defaults updated by the supplied dict). */
module CodebreakerConfig {
  import opened Wrappers

  /** A value found in a configuration dict. Python's `bool` is a subclass of
      `int`, so `True` and `False` are `IntValue(1)` and `IntValue(0)` here;
      `OtherValue` stands for every value of another type (floats, lists, ...). */
  datatype ConfigValue = IntValue(n: int) | StrValue(s: string) | NullValue | OtherValue

  /** What the contest hands over as configuration: `None`, a dict given by its
      items in iteration order, or an object that is not a dict. */
  datatype RawConfig = NoConfig | Dict(items: seq<(string, ConfigValue)>) | NotDict

  /** The reasons `validate` raises a `ValidationError`. */
  datatype ConfigError =
    | NotADict
    | UnknownKey(key: string)
    | InvalidType(key: string)
    | InvalidValue(key: string, value: ConfigValue)

  /** Points lost by each submission that did not break the code. */
  const PenaltyKey: string := "penalty"
  const DefaultPenalty: int := 1
  const Defaults: map<string, ConfigValue> := map[PenaltyKey := IntValue(DefaultPenalty)]

  /** `isinstance(v, type(d))`. */
  predicate SameType(v: ConfigValue, d: ConfigValue) {
    match d
    case IntValue(_) => v.IntValue?
    case StrValue(_) => v.StrValue?
    case NullValue => v.NullValue?
    case OtherValue => v.OtherValue?
  }

  /** The validator registered for `key`, applied to a value of the right type:
      the penalty must not be negative. */
  predicate Accepts(key: string, v: ConfigValue)
    requires key in Defaults && SameType(v, Defaults[key])
  {
    v.n >= 0
  }

  /** The three checks `validate` makes on one item, in the order it makes them. */
  function CheckEntry(entry: (string, ConfigValue)): Outcome<ConfigError> {
    var (key, value) := entry;
    if key !in Defaults then Fail(UnknownKey(key))
    else if !SameType(value, Defaults[key]) then Fail(InvalidType(key))
    else if !Accepts(key, value) then Fail(InvalidValue(key, value))
    else Pass
  }

  /** An item passes every check exactly when it sets the penalty to a
      non-negative integer. */
  lemma CheckEntryPasses(entry: (string, ConfigValue))
    ensures CheckEntry(entry).Pass? <==>
              entry.0 == PenaltyKey && entry.1.IntValue? && entry.1.n >= 0
  {
  }

  /** `dict.update`: the items are applied in order, so a later item overrides
      an earlier one with the same key. */
  function Update(base: map<string, ConfigValue>, items: seq<(string, ConfigValue)>): map<string, ConfigValue>
    decreases |items|
  {
    if items == [] then base
    else Update(base, items[..|items| - 1])[items[|items| - 1].0 := items[|items| - 1].1]
  }

  /** The keys after `dict.update` are those of the base and of the items. */
  lemma {:induction false} UpdateKeys(base: map<string, ConfigValue>, items: seq<(string, ConfigValue)>, k: string)
    ensures k in Update(base, items) <==> k in base || exists i :: 0 <= i < |items| && items[i].0 == k
    decreases |items|
  {
    if items != [] {
      var n := |items| - 1;
      UpdateKeys(base, items[..n], k);
      if exists i :: 0 <= i < n && items[..n][i].0 == k {
        var i :| 0 <= i < n && items[..n][i].0 == k;
        assert items[i].0 == k;
      }
      if exists i :: 0 <= i < |items| && items[i].0 == k {
        var i :| 0 <= i < |items| && items[i].0 == k;
        if i < n {
          assert items[..n][i].0 == k;
        }
      }
    }
  }

  /** A key that no item mentions keeps its value from the base. */
  lemma {:induction false} UpdateKeepsBase(base: map<string, ConfigValue>, items: seq<(string, ConfigValue)>, k: string)
    requires k in base
    requires forall i :: 0 <= i < |items| ==> items[i].0 != k
    ensures k in Update(base, items) && Update(base, items)[k] == base[k]
    decreases |items|
  {
    if items != [] {
      var n := |items| - 1;
      assert forall i :: 0 <= i < n ==> items[..n][i] == items[i];
      UpdateKeepsBase(base, items[..n], k);
    }
  }

  /** A key mentioned by the items holds the value of the last item that
      mentions it. */
  lemma {:induction false} UpdateLastWins(base: map<string, ConfigValue>, items: seq<(string, ConfigValue)>, i: nat)
    requires i < |items|
    requires forall j :: i < j < |items| ==> items[j].0 != items[i].0
    ensures items[i].0 in Update(base, items) && Update(base, items)[items[i].0] == items[i].1
    decreases |items|
  {
    var n := |items| - 1;
    if i < n {
      assert forall j :: i < j < n ==> items[..n][j] == items[j];
      UpdateLastWins(base, items[..n], i);
    }
  }

  /** The configuration a format instance works with: a copy of the defaults
      updated with the supplied dict (`None` counts as the empty dict). */
  function EffectiveConfig(raw: RawConfig): map<string, ConfigValue>
    requires !raw.NotDict?
  {
    Update(Defaults, if raw.Dict? then raw.items else [])
  }

  /** With no configuration, or an empty one, the penalty is the default 1. */
  lemma EmptyConfigGivesDefaults(raw: RawConfig)
    requires raw.NoConfig? || raw == Dict([])
    ensures EffectiveConfig(raw) == Defaults
    ensures EffectiveConfig(raw)[PenaltyKey] == IntValue(1)
  {
  }

  /** A configuration that passes validation yields exactly one key, the
      penalty, holding a non-negative integer: the last value supplied for it,
      or the default when none is supplied. */
  lemma ValidConfigPenalty(raw: RawConfig)
    requires raw.NoConfig? || (raw.Dict? && forall i :: 0 <= i < |raw.items| ==> CheckEntry(raw.items[i]).Pass?)
    ensures var m := EffectiveConfig(raw);
            && m.Keys == {PenaltyKey}
            && m[PenaltyKey].IntValue? && m[PenaltyKey].n >= 0
            && (raw.Dict? && |raw.items| > 0 ==> m[PenaltyKey] == raw.items[|raw.items| - 1].1)
            && (raw.NoConfig? || raw.items == [] ==> m[PenaltyKey] == IntValue(DefaultPenalty))
  {
    var items := if raw.Dict? then raw.items else [];
    forall i | 0 <= i < |items|
      ensures items[i].0 == PenaltyKey && items[i].1.IntValue? && items[i].1.n >= 0
    {
      CheckEntryPasses(items[i]);
    }
    var m := EffectiveConfig(raw);
    forall k | k in m
      ensures k == PenaltyKey
    {
      UpdateKeys(Defaults, items, k);
    }
    if |items| > 0 {
      UpdateLastWins(Defaults, items, |items| - 1);
    }
  }
}
