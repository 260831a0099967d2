/** Inline model settings: `provider:model@key=value@key2=value2` is split
    into the model name and a settings map, and the settings are turned
    into the keyword arguments of the provider's model-settings class. */
module ModelUtils {
  import opened Wrappers
  import opened Text

  /** A parsed setting value: Python's True/False, an int, or the text. */
  datatype SettingValue = BoolValue(b: bool) | IntValue(n: nat) | TextValue(s: string)

  type Settings = map<string, SettingValue>

  /** "true"/"false" in any case become booleans, all-digit text an int,
      anything else stays text. */
  function ParseValue(v: string): (r: SettingValue)
    ensures Lower(v) == "true" <==> r == BoolValue(true)
    ensures Lower(v) == "false" <==> r == BoolValue(false)
    ensures r.IntValue? <==> IsDigits(v)
    ensures r.IntValue? ==> r.n == DigitsValue(v)
    ensures r.TextValue? ==> r.s == v
  {
    if Lower(v) == "true" then BoolValue(true)
    else if Lower(v) == "false" then BoolValue(false)
    else if IsDigits(v) then
      assert Lower(v)[0] == v[0];
      IntValue(DigitsValue(v))
    else TextValue(v)
  }

  /** A segment carries a setting when it contains '='. */
  predicate HasSetting(seg: string) {
    !Lacks(seg, '=')
  }

  function KeyOf(seg: string): string
    requires HasSetting(seg)
  {
    SplitFirst(seg, '=').value.0
  }

  function ValueOf(seg: string): string
    requires HasSetting(seg)
  {
    SplitFirst(seg, '=').value.1
  }

  /** The settings of the segments after the model name, in order; a later
      segment with the same key overrides an earlier one. */
  function ParseSettings(segs: seq<string>): (r: Settings)
    ensures forall k :: k in r <==> exists i :: 0 <= i < |segs| && HasSetting(segs[i]) && KeyOf(segs[i]) == k
    decreases |segs|
  {
    if |segs| == 0 then map[]
    else
      var m := ParseSettings(segs[..|segs| - 1]);
      var last := segs[|segs| - 1];
      assert forall i :: 0 <= i < |segs| - 1 ==> segs[..|segs| - 1][i] == segs[i];
      if HasSetting(last) then m[KeyOf(last) := ParseValue(ValueOf(last))] else m
  }

  /** Reference meaning of the override rule: a key's value comes from the
      last segment that sets it. */
  lemma {:induction false} LastSegmentWins(segs: seq<string>, i: nat)
    requires i < |segs| && HasSetting(segs[i])
    requires forall j :: i < j < |segs| && HasSetting(segs[j]) ==> KeyOf(segs[j]) != KeyOf(segs[i])
    ensures KeyOf(segs[i]) in ParseSettings(segs)
    ensures ParseSettings(segs)[KeyOf(segs[i])] == ParseValue(ValueOf(segs[i]))
    decreases |segs|
  {
    var init := segs[..|segs| - 1];
    if i < |segs| - 1 {
      assert forall j :: i < j < |init| ==> init[j] == segs[j];
      LastSegmentWins(init, i);
    }
  }

  /** `parse_model_string`: without '@' the whole text is the model name and
      there are no settings; otherwise the name is the text before the first
      '@' and the settings come from the '@'-separated segments after it. */
  function ParseModelString(s: string): (r: (string, Settings))
    ensures Lacks(s, '@') ==> r == (s, map[])
    ensures Lacks(r.0, '@') && r.0 <= s
    ensures !Lacks(s, '@') ==> r.0 + ['@'] <= s && r.1 == ParseSettings(Split(s, '@')[1..])
  {
    if Lacks(s, '@') then (s, map[])
    else
      var parts := Split(s, '@');
      JoinSplit(s, '@');
      assert |parts| > 1;
      JoinCons(parts[0], parts[1..], '@');
      assert [parts[0]] + parts[1..] == parts;
      (parts[0], ParseSettings(parts[1..]))
  }

  /** A model name with one setting parses back to that name and setting. */
  lemma ParseOneSetting(name: string, key: string, value: string)
    requires Lacks(name, '@') && Lacks(key, '@') && Lacks(key, '=') && Lacks(value, '@')
    ensures ParseModelString(name + "@" + key + "=" + value) == (name, map[key := ParseValue(value)])
  {
    var s := name + "@" + key + "=" + value;
    var seg := key + "=" + value;
    assert s == name + ['@'] + seg;
    assert Lacks(seg, '@');
    assert !Lacks(s, '@') by { assert s[|name|] == '@'; }
    SplitAfterFirst(name, seg, '@');
    assert Split(s, '@')[1..] == [seg];
    assert !Lacks(seg, '=') by { assert seg[|key|] == '='; }
    SplitFirstOf(key, value, '=');
    assert ParseSettings([seg]) == ParseSettings([])[key := ParseValue(value)] by {
      assert [seg][..0] == [];
    }
  }

  /** Splitting `a + sep + b` where `a` and `b` lack `sep`. */
  lemma SplitAfterFirst(a: string, b: string, sep: char)
    requires Lacks(a, sep) && Lacks(b, sep)
    ensures Split(a + [sep] + b, sep) == [a, b]
  {
    var s := a + [sep] + b;
    var i := IndexOfChar(s, sep);
    assert s[|a|] == sep;
    assert i == |a| by {
      assert forall j :: 0 <= j < |a| ==> s[j] == a[j];
    }
    assert s[..i] == a && s[i + 1..] == b;
    assert Split(b, sep) == [b] by {
      assert IndexOfChar(b, sep) < 0;
    }
  }

  /** `split(sep, 1)` of `a + sep + b` where `a` lacks `sep`. */
  lemma SplitFirstOf(a: string, b: string, sep: char)
    requires Lacks(a, sep)
    ensures SplitFirst(a + [sep] + b, sep) == Some((a, b))
  {
    var s := a + [sep] + b;
    assert s[|a|] == sep;
    var r := SplitFirst(s, sep);
    FirstSeparator(a, b, r.value.0, r.value.1, sep);
  }

  // ------------------------------------------------------ model settings

  /** A keyword argument of a provider settings class. */
  datatype Kwarg = Plain(v: SettingValue) | ThinkingBudget(tokens: nat)

  datatype ModelSettings =
    | OpenAIResponsesSettings(kwargs: map<string, Kwarg>)
    | AnthropicSettings(kwargs: map<string, Kwarg>)

  const DefaultThinkingBudget: nat := 10000

  /** The thinking budget a `thinking` value asks for, if any: true gives
      the default budget, a positive int that many tokens. */
  function ThinkingFor(v: SettingValue): (r: Option<nat>)
    ensures r.Some? <==> v == BoolValue(true) || (v.IntValue? && v.n > 0)
    ensures v == BoolValue(true) ==> r == Some(DefaultThinkingBudget)
    ensures v.IntValue? && v.n > 0 ==> r == Some(v.n)
  {
    match v
    case BoolValue(b) => if b then Some(DefaultThinkingBudget) else None
    case IntValue(n) => if n > 0 then Some(n) else None
    case TextValue(_) => None
  }

  function OpenAIKwargs(settings: Settings): (r: map<string, Kwarg>)
    ensures "openai_reasoning_effort" in r <==> "reasoning_effort" in settings
    ensures "openai_reasoning_summary" in r <==> "reasoning_summary" in settings
    ensures "reasoning_effort" in settings ==> r["openai_reasoning_effort"] == Plain(settings["reasoning_effort"])
    ensures "reasoning_summary" in settings ==> r["openai_reasoning_summary"] == Plain(settings["reasoning_summary"])
    ensures forall k :: k in r ==> k == "openai_reasoning_effort" || k == "openai_reasoning_summary"
  {
    var a := if "reasoning_effort" in settings
             then map["openai_reasoning_effort" := Plain(settings["reasoning_effort"])] else map[];
    if "reasoning_summary" in settings then a["openai_reasoning_summary" := Plain(settings["reasoning_summary"])] else a
  }

  function AnthropicKwargs(settings: Settings): (r: map<string, Kwarg>)
    ensures "anthropic_thinking" in r <==> "thinking" in settings && ThinkingFor(settings["thinking"]).Some?
    ensures "anthropic_thinking" in r ==> r["anthropic_thinking"] == ThinkingBudget(ThinkingFor(settings["thinking"]).value)
    ensures forall k :: k in r ==> k == "anthropic_thinking"
  {
    if "thinking" in settings && ThinkingFor(settings["thinking"]).Some? then
      map["anthropic_thinking" := ThinkingBudget(ThinkingFor(settings["thinking"]).value)]
    else map[]
  }

  /** `get_model_settings`: None when the string carries no settings, when
      the provider is neither openai-responses nor anthropic, or when none of
      the settings maps to a keyword argument. */
  function GetModelSettings(s: string): (r: Option<ModelSettings>)
    ensures ParseModelString(s).1 == map[] ==> r.None?
    ensures var (name, settings) := ParseModelString(s);
      !("openai-responses:" <= name) && !("anthropic:" <= name) ==> r.None?
    ensures r.Some? ==> |r.value.kwargs| > 0
    ensures var (name, settings) := ParseModelString(s);
      r.Some? && "openai-responses:" <= name ==> r.value == OpenAIResponsesSettings(OpenAIKwargs(settings))
    ensures var (name, settings) := ParseModelString(s);
      r.Some? && "anthropic:" <= name ==> r.value == AnthropicSettings(AnthropicKwargs(settings))
  {
    var (name, settings) := ParseModelString(s);
    if settings == map[] then None
    else if "openai-responses:" <= name then
      var kw := OpenAIKwargs(settings);
      if |kw| > 0 then Some(OpenAIResponsesSettings(kw)) else None
    else if "anthropic:" <= name then
      var kw := AnthropicKwargs(settings);
      if |kw| > 0 then Some(AnthropicSettings(kw)) else None
    else None
  }

  /** The key `thinking` holds neither separator. */
  lemma ThinkingKeyPlain()
    ensures Lacks("thinking", '@') && Lacks("thinking", '=')
  {
    var k := "thinking";
    assert forall i :: 0 <= i < |k| ==> k[i] in {'t', 'h', 'i', 'n', 'k', 'g'};
  }

  /** For an anthropic model the settings are the thinking budget alone. */
  lemma AnthropicSettingsOf(s: string, name: string, settings: Settings)
    requires ParseModelString(s) == (name, settings) && "anthropic:" <= name && settings != map[]
    ensures AnthropicKwargs(settings) == map[] ==> GetModelSettings(s).None?
    ensures AnthropicKwargs(settings) != map[] ==> GetModelSettings(s) == Some(AnthropicSettings(AnthropicKwargs(settings)))
  {
    assert name[0] == 'a';
    assert !("openai-responses:" <= name);
  }

  /** `<name>@thinking=<value>` carries the one setting `thinking`. */
  lemma ThinkingOnly(name: string, value: string)
    requires Lacks(name, '@') && Lacks(value, '@')
    ensures ParseModelString(name + "@thinking=" + value) == (name, map["thinking" := ParseValue(value)])
  {
    assert name + "@thinking=" + value == name + "@" + "thinking" + "=" + value;
    ThinkingKeyPlain();
    ParseOneSetting(name, "thinking", value);
  }

  /** `thinking=false` and `thinking=0` leave thinking off, so an anthropic
      model whose only setting is that gets no settings at all. */
  lemma ThinkingOffGivesNone(name: string, value: string)
    requires "anthropic:" <= name && Lacks(name, '@') && Lacks(value, '@')
    requires Lower(value) == "false" || (IsDigits(value) && DigitsValue(value) == 0)
    ensures GetModelSettings(name + "@thinking=" + value).None?
  {
    ThinkingOnly(name, value);
    var settings := map["thinking" := ParseValue(value)];
    assert AnthropicKwargs(settings) == map[];
    AnthropicSettingsOf(name + "@thinking=" + value, name, settings);
  }

  /** `thinking=<n>` with n > 0 asks for an n-token budget. */
  lemma ThinkingBudgetGiven(name: string, value: string)
    requires "anthropic:" <= name && Lacks(name, '@') && Lacks(value, '@')
    requires IsDigits(value) && DigitsValue(value) > 0
    ensures GetModelSettings(name + "@thinking=" + value)
      == Some(AnthropicSettings(map["anthropic_thinking" := ThinkingBudget(DigitsValue(value))]))
  {
    ThinkingOnly(name, value);
    var settings := map["thinking" := ParseValue(value)];
    assert AnthropicKwargs(settings) == map["anthropic_thinking" := ThinkingBudget(DigitsValue(value))];
    AnthropicSettingsOf(name + "@thinking=" + value, name, settings);
  }
}
