/** The SQL functions `regexp_replace_rand(text, ...)` and `regexp_replace_rand(text[], ...)` without
    options: argument checks, expansion of rule and result, the rewriting loops, and what is restored
    of the argument slots. The optional arguments are None when absent or NULL. */
module RegexpReplaceRand {
  import opened Numerals
  import opened RegexpRewrite
  import opened ReplaceRandProperties
  import opened SplitRules
  import opened Texts
  import RR = ReplaceRand
  import T = Templates

  predicate FillsVars(json: Option<T.Jsonb>)
    ensures FillsVars(json) <==> exists vars :: json == Some(T.JsonObject(vars))
  {
    json.Some? && json.value.JsonObject?
  }

  /** `replace_placeholders` when the variables are a JSON object, else nothing. */
  function WithVars(t: Text, json: Option<T.Jsonb>): Text {
    if FillsVars(json) then T.Expand(t, json.value.vars) else t
  }

  /** The result text the loops work on: random digits first, then variables. */
  function Prepared(result: Text, json: Option<T.Jsonb>, ds: RR.Stream): Text {
    WithVars(RR.Expand(result, 0, ds, 0), json)
  }

  /** Which of the three leading arguments are NULL. */
  datatype Nulls = Nulls(input: bool, rule: bool, result: bool)

  /** The answer for an input when rule and result are what the slots hold and no variables are given. */
  function Answer(e: Engine, input: Text, slots: (Text, Text), keepEmpty: bool, ds: RR.Stream): Text {
    if slots.0 == [] then input else Rewrite(e, slots.0, RR.Expand(slots.1, 0, ds, 0), input, keepEmpty)
  }

  /** The same for an element of an array. */
  function ElementAnswer(e: Engine, input: Text, slots: (Text, Text), keepEmpty: bool, ds: RR.Stream): Text {
    if slots.0 == [] then input else RewriteElement(e, slots.0, RR.Expand(slots.1, 0, ds, 0), input, keepEmpty)
  }

  // ----- Laws -----

  /** Variables come last: what they insert into the result gets no random digits and is not scanned
      for variables again, even where it holds the notation for either. */
  lemma InsertedValuesStay(x: T.Template, vars: T.Vars, ds: RR.Stream)
    requires T.WellFormed(x) && RR.First(T.Print(x), 0).None?
    ensures Prepared(T.Print(x), Some(T.JsonObject(vars)), ds) == T.Fill(x, vars)
  {
    hide RR.First, T.Expand, T.WellFormed, T.Print, T.Fill;
    assert T.Print(x)[0..] == T.Print(x);
    T.ExpandPrinted(x, vars);
  }

  /** The result text gets its digits first and the values of variables then: a number placeholder
      followed by a placeholder for a known variable becomes digits, then the value. */
  lemma DigitsThenValue(n: nat, key: Text, vars: T.Vars, ds: RR.Stream) returns (digits: Text)
    requires key != [] && key in vars && T.Before("vars." + key, '}') && FreeOf("vars." + key, 'r', '(')
    ensures |digits| == if n <= 64 then n else 64
    ensures forall i :: 0 <= i < |digits| ==> digits[i] as int == 0x30 + ds(i)
    ensures var result := "r(" + Decimal(n) + ")" + ("{{" + ("vars." + key) + "}}");
      && Prepared(result, None, ds) == digits + ("{{" + ("vars." + key) + "}}")
      && Prepared(result, Some(T.OtherJson), ds) == digits + ("{{" + ("vars." + key) + "}}")
      && Prepared(result, Some(T.JsonObject(vars)), ds) == digits + T.Shown(vars[key])
  {
    hide RR.Expand, T.Expand, Decimal, T.Shown;
    digits := DigitsBeforeText(n, "{{" + ("vars." + key) + "}}", ds) by { SlotHasNoNumber(key); }
    ValueBehindDigits(digits, key, vars);
  }

  lemma DigitsBeforeText(n: nat, text: Text, ds: RR.Stream) returns (digits: Text)
    requires FreeOf(text, 'r', '(')
    ensures |digits| == if n <= 64 then n else 64
    ensures forall i :: 0 <= i < |digits| ==> digits[i] as int == 0x30 + ds(i)
    ensures RR.Expand("r(" + Decimal(n) + ")" + text, 0, ds, 0) == digits + text
  {
    hide RR.Expand, Decimal, FreeOf;
    assert FreeOf([], 'r', '(') by { EmptyIsFree(); }
    var arg := [] + [] + Decimal(n) + [];
    assert arg == Decimal(n);
    digits := DecimalPlaceholder([], [], [], n, [], text, ds, 0);
    assert [] + "r(" + arg + ")" + text == "r(" + Decimal(n) + ")" + text;
    UnclosedStays(text, [], ds, |digits|);
    assert [] + digits + text == digits + text;
  }

  lemma EmptyIsFree()
    ensures FreeOf([], 'r', '(')
  {
  }

  lemma ValueBehindDigits(digits: Text, key: Text, vars: T.Vars)
    requires forall i :: 0 <= i < |digits| ==> 0x30 <= digits[i] as int <= 0x39
    requires key != [] && key in vars && T.Before("vars." + key, '}')
    ensures T.Expand(digits + ("{{" + ("vars." + key) + "}}"), vars) == digits + T.Shown(vars[key])
  {
    hide T.Expand, T.Shown, T.Before, T.Meaning, FreeOf;
    var name := "vars." + key;
    DigitsBeforeSlot(digits, key);
    T.PlaceholderInPlace(digits, name, [], vars);
    assert digits + "{{" + name + "}}" + [] == digits + ("{{" + name + "}}");
    NothingExpanded(vars);
    KnownMeaning(key, vars);
    assert digits + T.Shown(vars[key]) + [] == digits + T.Shown(vars[key]);
  }

  lemma NothingExpanded(vars: T.Vars)
    ensures T.Expand([], vars) == []
  {
    T.UnclosedLosesBraces([], [], vars);
  }

  lemma SlotHasNoNumber(key: Text)
    requires FreeOf("vars." + key, 'r', '(')
    ensures FreeOf("{{" + ("vars." + key) + "}}", 'r', '(')
  {
    var name, slot := "vars." + key, "{{" + ("vars." + key) + "}}";
    forall i | 0 <= i < |slot| ensures !PairAt(slot, 'r', '(', i) {
      if 2 <= i < 2 + |name| { assert !PairAt(name, 'r', '(', i - 2) && slot[i] == name[i - 2]; }
    }
  }

  lemma DigitsBeforeSlot(digits: Text, key: Text)
    requires forall i :: 0 <= i < |digits| ==> 0x30 <= digits[i] as int <= 0x39
    ensures T.Before(digits, '{')
  {
  }

  lemma KnownMeaning(key: Text, vars: T.Vars)
    requires key != [] && key in vars
    ensures T.Meaning("vars." + key, vars) == T.Shown(vars[key])
  {
    var name := "vars." + key;
    assert name[..5] == "vars." && name[5..] == key;
  }

  /** Only a JSON object fills in variables; the rule text gets nothing else. */
  lemma VarsOnlyFromObject(x: T.Template, vars: T.Vars)
    requires T.WellFormed(x)
    ensures WithVars(T.Print(x), None) == WithVars(T.Print(x), Some(T.OtherJson)) == T.Print(x)
    ensures WithVars(T.Print(x), Some(T.JsonObject(vars))) == T.Fill(x, vars)
  {
    hide T.Expand, T.WellFormed;
    T.ExpandPrinted(x, vars);
  }

  /** The texts that no variables argument can change are those without an opening token. */
  lemma VarsNeedToken(t: Text)
    ensures (forall json: Option<T.Jsonb> :: WithVars(t, json) == t) <==> FreeOf(t, '{', '{')
  {
    hide T.Expand;
    T.FixedIffFree(t);
    if forall json: Option<T.Jsonb> :: WithVars(t, json) == t {
      forall vars: T.Vars ensures T.Expand(t, vars) == t {
        assert WithVars(t, Some(T.JsonObject(vars))) == t;
      }
    }
  }

  // ----- The SQL functions -----

  method ExpandWithVars(t: Text, json: Option<T.Jsonb>) returns (r: Text)
    ensures r == WithVars(t, json)
  {
    if json.Some? && json.value.JsonObject? {
      r := T.ReplacePlaceholders(t, json.value.vars);
    } else {
      r := t;
    }
  }

  /** The part both functions have in common: digits and variables in, the originals to restore out. */
  method PrepareSlots(frame: CallFrame, json: Option<T.Jsonb>, ds: RR.Stream)
    returns (origRule: Option<Text>, origResult: Option<Text>)
    modifies frame`argRule, frame`argResult
    ensures frame.argRule == WithVars(old(frame.argRule), json)
    ensures frame.argResult == Prepared(old(frame.argResult), json, ds)
    ensures origRule == if FillsVars(json) then Some(old(frame.argRule)) else None
    ensures origResult ==
      if FillsVars(json) || RR.First(old(frame.argResult), 0).Some? then Some(old(frame.argResult)) else None
  {
    hide RR.First, RR.Expand, T.Expand;
    origRule, origResult := None, None;
    var t, replaced := RR.Replace(frame.argResult, ds);
    if replaced {
      origResult := Some(frame.argResult);
      frame.argResult := t;
    } else {
      RR.NothingFound(frame.argResult, ds);
    }
    if json.Some? && json.value.JsonObject? {
      var tmp := ExpandWithVars(frame.argResult, json);
      if !replaced { origResult := Some(frame.argResult); }
      frame.argResult := tmp;
      origRule := Some(frame.argRule);
      frame.argRule := ExpandWithVars(frame.argRule, json);
    }
  }

  method Restore(frame: CallFrame, origRule: Option<Text>, origResult: Option<Text>)
    modifies frame`argRule, frame`argResult
    ensures frame.argRule == origRule.GetOr(old(frame.argRule))
    ensures frame.argResult == origResult.GetOr(old(frame.argResult))
  {
    if origRule.Some? { frame.argRule := origRule.value; }
    if origResult.Some? { frame.argResult := origResult.value; }
  }

  method ReplaceText(e: Engine, frame: CallFrame, nulls: Nulls, keepEmpty: Option<bool>, json: Option<T.Jsonb>, ds: RR.Stream)
    returns (r: Option<Text>)
    modifies frame`argRule, frame`argResult
    ensures nulls.input ==> r == None
    ensures !nulls.input && (nulls.rule || nulls.result || old(frame.argRule) == []) ==> r == Some(frame.argIn)
    ensures nulls.input || nulls.rule || nulls.result || old(frame.argRule) == [] ==>
      frame.argRule == old(frame.argRule) && frame.argResult == old(frame.argResult)
    ensures nulls == Nulls(false, false, false) && old(frame.argRule) != [] ==>
      var rule, result := WithVars(old(frame.argRule), json), Prepared(old(frame.argResult), json, ds);
      var last := LastTried(e, Chunks(rule), Chunks(result), frame.argIn);
      && r == Some(Rewrite(e, rule, result, frame.argIn, keepEmpty.GetOr(false)))
      && frame.argRule == (if FillsVars(json) then old(frame.argRule) else last.0)
      && frame.argResult == (if FillsVars(json) || RR.First(old(frame.argResult), 0).Some? then old(frame.argResult) else last.1)
    ensures nulls == Nulls(false, false, false) && !FillsVars(json) ==>
      r == Some(Answer(e, frame.argIn, old((frame.argRule, frame.argResult)), keepEmpty.GetOr(false), ds))
  {
    if nulls.input { return None; }
    if nulls.rule || nulls.result { return Some(frame.argIn); }
    if frame.argRule == [] { return Some(frame.argIn); }
    hide RR.First, RR.Expand, T.Expand, Chunks, LastTried, Rewrite;
    var origRule, origResult := PrepareSlots(frame, json, ds);
    var ret := frame.RewriteScalar(e, keepEmpty.GetOr(false));
    Restore(frame, origRule, origResult);
    return Some(ret.GetOr(frame.argIn));
  }

  /** For arrays the input argument is the array; `inputs` holds its elements. */
  method ReplaceArray(e: Engine, frame: CallFrame, nulls: Nulls, inputs: seq<Option<Text>>,
                      keepEmpty: Option<bool>, json: Option<T.Jsonb>, ds: RR.Stream)
    returns (r: Option<seq<Option<Text>>>)
    modifies frame
    ensures frame.argIn == old(frame.argIn)
    ensures nulls.input ==> r == None
    ensures !nulls.input && (nulls.rule || nulls.result || old(frame.argRule) == []) ==> r == Some(inputs)
    ensures nulls.input || nulls.rule || nulls.result || old(frame.argRule) == [] ==>
      frame.argRule == old(frame.argRule) && frame.argResult == old(frame.argResult)
    ensures nulls == Nulls(false, false, false) && old(frame.argRule) != [] ==>
      var rule, result := WithVars(old(frame.argRule), json), Prepared(old(frame.argResult), json, ds);
      var last := SlotsAfter(e, rule, result, inputs);
      && r.Some? && |r.value| == |inputs|
      && (forall i :: 0 <= i < |inputs| ==> (r.value[i] == None <==> inputs[i] == None))
      && (forall i :: 0 <= i < |inputs| && inputs[i].Some? ==>
           r.value[i] == Some(RewriteElement(e, rule, result, inputs[i].value, keepEmpty.GetOr(false))))
      && frame.argRule == (if FillsVars(json) then old(frame.argRule) else last.0)
      && frame.argResult == (if FillsVars(json) || RR.First(old(frame.argResult), 0).Some? then old(frame.argResult) else last.1)
    ensures nulls == Nulls(false, false, false) && !FillsVars(json) ==>
      forall i :: 0 <= i < |inputs| && inputs[i].Some? ==>
        r.value[i] == Some(ElementAnswer(e, inputs[i].value, old((frame.argRule, frame.argResult)), keepEmpty.GetOr(false), ds))
  {
    if nulls.input { return None; }
    if nulls.rule || nulls.result { return Some(inputs); }
    if frame.argRule == [] { return Some(inputs); }
    hide RR.First, RR.Expand, T.Expand, SlotsAfter, RewriteNullable, RewriteElement;
    var origRule, origResult := PrepareSlots(frame, json, ds);
    var out := frame.RewriteArray(e, inputs, keepEmpty.GetOr(false));
    Restore(frame, origRule, origResult);
    return Some(out);
  }
}
