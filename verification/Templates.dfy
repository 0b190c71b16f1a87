/** `{{vars.name}}` templates: the two-state scanner of `replace_placeholders`, and the grammar it
    implements. */
module Templates {
  import opened Collections
  import opened Texts

  const PREFIX: Text := "vars."

  /** A JSON value as far as it can be shown; a number is given by its printed form. */
  datatype JsonValue = JsonNull | JsonString(s: Text) | JsonNumber(printed: Text) | JsonBool(b: bool) | NonScalar

  type Vars = map<Text, JsonValue>

  datatype Jsonb = JsonObject(vars: Vars) | OtherJson

  function Shown(v: JsonValue): Text {
    match v
    case JsonNull => []
    case JsonString(s) => s
    case JsonNumber(printed) => printed
    case JsonBool(b) => if b then "true" else "false"
    case NonScalar => []
  }

  /** What a placeholder stands for. Anything but `vars.` and a known nonempty name stands for nothing. */
  function Meaning(name: Text, vars: Vars): Text {
    if |name| <= |PREFIX| || name[..|PREFIX|] != PREFIX then []
    else
      var key := name[|PREFIX|..];
      if key in vars then Shown(vars[key]) else []
  }

  // ----- The grammar -----

  /** Literals and placeholders in turn; Open is a placeholder that is never closed. */
  datatype Template =
    | Tail(lit: Text)
    | Open(lit: Text, tail: Text)
    | Slot(lit: Text, name: Text, rest: Template)

  function Parse(t: Text): Template {
    match IndexOfPair(t, '{', '{', 0)
    case None => Tail(t)
    case Some(i) =>
      var u := t[i + 2..];
      match IndexOfPair(u, '}', '}', 0)
      case None => Open(t[..i], u)
      case Some(j) => Slot(t[..i], u[..j], Parse(u[j + 2..]))
  }

  function Print(x: Template): Text {
    match x
    case Tail(lit) => lit
    case Open(lit, tail) => lit + "{{" + tail
    case Slot(lit, name, rest) => lit + "{{" + name + "}}" + Print(rest)
  }

  predicate EndsIn(t: Text, c: char) { t != [] && t[|t| - 1] == c }

  /** A piece that can stand before the two-character token c, c and be read back. */
  ghost predicate Before(t: Text, c: char) { FreeOf(t, c, c) && !EndsIn(t, c) }

  ghost predicate WellFormed(x: Template) {
    match x
    case Tail(lit) => FreeOf(lit, '{', '{')
    case Open(lit, tail) => Before(lit, '{') && FreeOf(tail, '}', '}')
    case Slot(lit, name, rest) => Before(lit, '{') && Before(name, '}') && WellFormed(rest)
  }

  /** The expansion: literals as they stand, placeholders by their meaning, the brackets of an
      unclosed placeholder dropped. */
  function Fill(x: Template, vars: Vars): Text {
    match x
    case Tail(lit) => lit
    case Open(lit, tail) => lit + tail
    case Slot(lit, name, rest) => lit + Meaning(name, vars) + Fill(rest, vars)
  }

  function Expand(t: Text, vars: Vars): Text { Fill(Parse(t), vars) }

  // ----- Reading and printing -----

  /** The piece cut off at the leftmost token may stand before it. */
  lemma CutIsBefore(t: Text, c: char, i: nat)
    requires IndexOfPair(t, c, c, 0) == Some(i)
    ensures Before(t[..i], c)
  {
    forall k | 0 <= k < i ensures !PairAt(t[..i], c, c, k) {
      assert !PairAt(t, c, c, k);
    }
    assert i > 0 ==> !PairAt(t, c, c, i - 1);
  }

  lemma BeforeIsCut(piece: Text, c: char, rest: Text)
    requires Before(piece, c)
    ensures IndexOfPair(piece + [c, c] + rest, c, c, 0) == Some(|piece|)
  {
    var t := piece + [c, c] + rest;
    forall k | 0 <= k < |piece| ensures !PairAt(t, c, c, k) {
      assert !PairAt(piece, c, c, k);
    }
    PairIsAt(t, c, c, 0, |piece|);
  }

  /** Every text is the printed form of exactly one well-formed template: its parse. */
  lemma {:induction false} PrintParse(t: Text)
    ensures Print(Parse(t)) == t && WellFormed(Parse(t))
    decreases |t|
  {
    hide IndexOfPair, Before;
    match IndexOfPair(t, '{', '{', 0)
    case None =>
    case Some(i) =>
      var u := t[i + 2..];
      CutIsBefore(t, '{', i);
      PiecesAtPair(t, '{', i);
      match IndexOfPair(u, '}', '}', 0)
      case None =>
      case Some(j) =>
        CutIsBefore(u, '}', j);
        PrintParse(u[j + 2..]);
        PiecesAtPair(u, '}', j);
        var name, rest := u[..j], u[j + 2..];
        RegroupThree(t[..i] + "{{", name, "}}", rest);
  }

  lemma PiecesAtPair(t: Text, c: char, i: nat)
    requires PairAt(t, c, c, i)
    ensures t == t[..i] + [c, c] + t[i + 2..]
  {
  }

  lemma {:induction false} ParsePrint(x: Template)
    requires WellFormed(x)
    ensures Parse(Print(x)) == x
    decreases x
  {
    hide IndexOfPair, Before;
    var t := Print(x);
    match x
    case Tail(lit) => NoToken(lit, '{');
    case Open(lit, tail) =>
      BeforeIsCut(lit, '{', tail);
      NoToken(tail, '}');
      assert t[..|lit|] == lit && t[|lit| + 2..] == tail;
    case Slot(lit, name, rest) =>
      var u := name + "}}" + Print(rest);
      BeforeIsCut(lit, '{', u);
      assert t == lit + "{{" + u;
      assert t[..|lit|] == lit && t[|lit| + 2..] == u;
      BeforeIsCut(name, '}', Print(rest));
      assert u[..|name|] == name && u[|name| + 2..] == Print(rest);
      ParsePrint(rest);
  }

  lemma NoToken(t: Text, c: char)
    requires FreeOf(t, c, c)
    ensures IndexOfPair(t, c, c, 0).None?
  {
    SkipToPair(t, c, c, 0, |t|);
  }

  /** Expanding a printed template yields its segments' meanings, whatever the inserted values hold:
      they are never scanned again. */
  lemma ExpandPrinted(x: Template, vars: Vars)
    requires WellFormed(x)
    ensures Expand(Print(x), vars) == Fill(x, vars)
  {
    ParsePrint(x);
  }

  // ----- Idempotence -----

  predicate StartsIn(t: Text, c: char) { t != [] && t[0] == c }

  /** The first character of the expansion is c. */
  predicate OpensWith(x: Template, vars: Vars, c: char) {
    match x
    case Tail(lit) => StartsIn(lit, c)
    case Open(lit, tail) => StartsIn(if lit == [] then tail else lit, c)
    case Slot(lit, name, rest) =>
      var value := Meaning(name, vars);
      if lit != [] then StartsIn(lit, c) else if value != [] then StartsIn(value, c) else OpensWith(rest, vars, c)
  }

  /** No opening token gets into the output: an inserted value neither holds one nor makes one with
      the character behind it, and an unclosed placeholder holds none. */
  ghost predicate LeavesNoOpening(x: Template, vars: Vars) {
    match x
    case Tail(lit) => true
    case Open(lit, tail) => FreeOf(tail, '{', '{')
    case Slot(lit, name, rest) =>
      var value := Meaning(name, vars);
      && FreeOf(value, '{', '{')
      && !(EndsIn(value, '{') && OpensWith(rest, vars, '{'))
      && LeavesNoOpening(rest, vars)
  }

  lemma {:induction false} OpensWithIsExact(x: Template, vars: Vars, c: char)
    ensures OpensWith(x, vars, c) <==> StartsIn(Fill(x, vars), c)
    decreases x
  {
    if x.Slot? { OpensWithIsExact(x.rest, vars, c); }
  }

  lemma FreeConcat(a: Text, b: Text, c: char)
    ensures FreeOf(a + b, c, c) <==> FreeOf(a, c, c) && FreeOf(b, c, c) && !(EndsIn(a, c) && StartsIn(b, c))
  {
    assert forall k | 0 <= k && k + 1 < |a| :: PairAt(a, c, c, k) == PairAt(a + b, c, c, k);
    assert forall k | 0 <= k < |b| :: PairAt(b, c, c, k) == PairAt(a + b, c, c, |a| + k);
    if EndsIn(a, c) && StartsIn(b, c) {
      assert PairAt(a + b, c, c, |a| - 1);
    } else if FreeOf(a, c, c) && FreeOf(b, c, c) {
      forall k | 0 <= k < |a + b| ensures !PairAt(a + b, c, c, k) {
        if k >= |a| { assert !PairAt(b, c, c, k - |a|); }
      }
    }
  }

  lemma {:induction false} LeavesNoOpeningIsExact(x: Template, vars: Vars)
    requires WellFormed(x)
    ensures LeavesNoOpening(x, vars) <==> FreeOf(Fill(x, vars), '{', '{')
    decreases x
  {
    hide FreeOf, EndsIn, StartsIn, Meaning;
    match x
    case Tail(lit) =>
    case Open(lit, tail) => FreeConcat(lit, tail, '{');
    case Slot(lit, name, rest) =>
      var value := Meaning(name, vars);
      LeavesNoOpeningIsExact(rest, vars);
      OpensWithIsExact(rest, vars, '{');
      FreeConcat(value, Fill(rest, vars), '{');
      FreeConcat(lit, value + Fill(rest, vars), '{');
      assert lit + (value + Fill(rest, vars)) == Fill(x, vars);
  }

  /** A second expansion changes nothing, whatever variables it is given, exactly under that condition. */
  lemma IdempotentIff(t: Text, vars: Vars)
    ensures (forall other: Vars :: Expand(Expand(t, vars), other) == Expand(t, vars))
      <==> LeavesNoOpening(Parse(t), vars)
  {
    PrintParse(t);
    LeavesNoOpeningIsExact(Parse(t), vars);
    FixedIffFree(Expand(t, vars));
  }

  /** It holds in particular when no value has a brace and an unclosed placeholder has no opening. */
  lemma {:induction false} BracelessValues(x: Template, vars: Vars)
    requires forall key <- vars :: '{' !in Shown(vars[key])
    requires FreeOf(UnclosedTail(x), '{', '{')
    ensures LeavesNoOpening(x, vars)
    decreases x
  {
    if x.Slot? { BracelessValues(x.rest, vars); }
  }

  /** What stands behind an opening that is never closed. */
  function UnclosedTail(x: Template): Text {
    match x
    case Tail(_) => []
    case Open(_, tail) => tail
    case Slot(_, _, rest) => UnclosedTail(rest)
  }

  /** A placeholder in its place: what stands before and behind it is not affected by its value. */
  lemma PlaceholderInPlace(lit: Text, name: Text, rest: Text, vars: Vars)
    requires Before(lit, '{') && Before(name, '}')
    ensures Expand(lit + "{{" + name + "}}" + rest, vars) == lit + Meaning(name, vars) + Expand(rest, vars)
  {
    hide Meaning, IndexOfPair, Before, Parse;
    PrintParse(rest);
    ExpandPrinted(Slot(lit, name, Parse(rest)), vars);
  }

  /** Names with the prefix and a nonempty key mean the key's value, if it has one; no other name
      means anything. */
  lemma OnlyKnownNamesMean(name: Text, vars: Vars)
    ensures Meaning(name, vars) != [] <==>
      exists key :: key in vars && key != [] && name == PREFIX + key && Shown(vars[key]) != []
  {
    if |name| >= |PREFIX| {
      assert name[..|PREFIX|] == PREFIX ==> name == PREFIX + name[|PREFIX|..];
    }
    forall key | key in vars && key != [] && name == PREFIX + key ensures Meaning(name, vars) == Shown(vars[key]) {
      assert name[..|PREFIX|] == PREFIX && name[|PREFIX|..] == key;
    }
  }

  /** What a known variable shows, by the type of its value. */
  lemma ShownInPlace(lit: Text, key: Text, rest: Text, vars: Vars)
    requires Before(lit, '{') && Before("vars." + key, '}') && key != [] && key in vars
    ensures match vars[key]
      case JsonNull => Expand(lit + "{{" + ("vars." + key) + "}}" + rest, vars) == lit + Expand(rest, vars)
      case JsonString(s) => Expand(lit + "{{" + ("vars." + key) + "}}" + rest, vars) == lit + s + Expand(rest, vars)
      case JsonNumber(printed) => Expand(lit + "{{" + ("vars." + key) + "}}" + rest, vars) == lit + printed + Expand(rest, vars)
      case JsonBool(true) => Expand(lit + "{{" + ("vars." + key) + "}}" + rest, vars) == lit + "true" + Expand(rest, vars)
      case JsonBool(false) => Expand(lit + "{{" + ("vars." + key) + "}}" + rest, vars) == lit + "false" + Expand(rest, vars)
      case NonScalar => Expand(lit + "{{" + ("vars." + key) + "}}" + rest, vars) == lit + Expand(rest, vars)
  {
    hide Expand, Before;
    var name := "vars." + key;
    assert name[..5] == "vars." && name[5..] == key;
    PlaceholderInPlace(lit, name, rest, vars);
    assert lit + [] == lit;
  }

  /** An opening that is never closed loses its two braces and nothing else; a text without opening
      stays. */
  lemma UnclosedLosesBraces(lit: Text, tail: Text, vars: Vars)
    ensures FreeOf(lit, '{', '{') ==> Expand(lit, vars) == lit
    ensures Before(lit, '{') && FreeOf(tail, '}', '}') ==> Expand(lit + "{{" + tail, vars) == lit + tail
  {
    hide IndexOfPair, FreeOf;
    if FreeOf(lit, '{', '{') { NoToken(lit, '{'); }
    if Before(lit, '{') && FreeOf(tail, '}', '}') { ExpandPrinted(Open(lit, tail), vars); }
  }

  /** So a placeholder that names no variable vanishes from the text without a trace. */
  lemma UnknownNamesVanish(lit: Text, name: Text, rest: Text, vars: Vars)
    requires Before(lit, '{') && Before(name, '}')
    requires forall key <- vars :: key != [] ==> name != PREFIX + key
    ensures Expand(lit + "{{" + name + "}}" + rest, vars) == lit + Expand(rest, vars)
  {
    hide Meaning, Expand, Before, Shown;
    OnlyKnownNamesMean(name, vars);
    PlaceholderInPlace(lit, name, rest, vars);
  }

  /** A lone placeholder for a known variable expands to the variable's value. */
  lemma LonePlaceholder(key: Text, vars: Vars)
    requires key != [] && key in vars && Before(PREFIX + key, '}')
    ensures Expand("{{" + (PREFIX + key) + "}}", vars) == Shown(vars[key])
  {
    hide Parse, IndexOfPair, Shown;
    var name := PREFIX + key;
    var x := Slot([], name, Tail([]));
    ParsePrint(x);
    assert name[..|PREFIX|] == PREFIX && name[|PREFIX|..] == key;
    assert Meaning(name, vars) == Shown(vars[key]);
    assert Fill(x, vars) == [] + Meaning(name, vars) + Fill(Tail([]), vars) == Shown(vars[key]);
    assert Print(x) == [] + "{{" + name + "}}" + Print(Tail([])) == "{{" + name + "}}";
  }

  /** Without the condition it fails: a value may itself be a placeholder. */
  lemma ValueMayBePlaceholder()
    ensures var vars := map["a" := JsonString("{{vars.b}}"), "b" := JsonString("x")];
      Expand("{{vars.a}}", vars) == "{{vars.b}}" && Expand("{{vars.b}}", vars) == "x"
  {
    hide Expand;
    var vars := map["a" := JsonString("{{vars.b}}"), "b" := JsonString("x")];
    assert "{{" + (PREFIX + "a") + "}}" == "{{vars.a}}" && "{{" + (PREFIX + "b") + "}}" == "{{vars.b}}";
    LonePlaceholder("a", vars);
    LonePlaceholder("b", vars);
  }

  /** A value may also be its own placeholder, which every expansion with it reproduces. */
  lemma ValueMayBeItself()
    ensures var vars := map["a" := JsonString("{{vars.a}}")];
      Expand("{{vars.a}}", vars) == "{{vars.a}}" && !LeavesNoOpening(Parse("{{vars.a}}"), vars)
  {
    hide Expand, LeavesNoOpening, Parse, Fill, Shown, IndexOfPair, Meaning;
    var t: Text := "{{vars.a}}";
    var vars := map["a" := JsonString(t)];
    assert "{{" + (PREFIX + "a") + "}}" == t;
    LonePlaceholder("a", vars);
    ExpandIsFill(t, vars);
    PrintParse(t);
    LeavesNoOpeningIsExact(Parse(t), vars);
    ShownText(t);
    assert PairAt(t, '{', '{', 0);
  }

  lemma ShownText(s: Text)
    ensures Shown(JsonString(s)) == s
  {
  }

  lemma ExpandIsFill(t: Text, vars: Vars)
    ensures Expand(t, vars) == Fill(Parse(t), vars)
  {
  }

  /** The texts that no expansion can change are exactly those without an opening token. */
  lemma FixedIffFree(t: Text)
    ensures (forall vars: Vars :: Expand(t, vars) == t) <==> FreeOf(t, '{', '{')
  {
    PrintParse(t);
    if FreeOf(t, '{', '{') {
      NoToken(t, '{');
    } else {
      FillShrinks(Parse(t));
      assert Expand(t, map[]) != t;
    }
  }

  lemma {:induction false} FillShrinks(x: Template)
    ensures if x.Tail? then Fill(x, map[]) == Print(x) else |Fill(x, map[])| < |Print(x)|
    decreases x
  {
    match x
    case Tail(_) =>
    case Open(_, _) =>
    case Slot(lit, name, rest) => FillShrinks(rest);
  }

  // ----- The scanner -----

  /** The expansion of a text that starts inside a placeholder. */
  function ExpandInside(u: Text, vars: Vars): Text {
    match IndexOfPair(u, '}', '}', 0)
    case None => u
    case Some(j) => Meaning(u[..j], vars) + Expand(u[j + 2..], vars)
  }

  lemma {:induction false} ExpandCases(t: Text, vars: Vars)
    ensures Expand(t, vars) ==
      match IndexOfPair(t, '{', '{', 0)
      case None => t
      case Some(i) => t[..i] + ExpandInside(t[i + 2..], vars)
  {
    hide IndexOfPair, Meaning, Parse, Fill;
    ParseUnfolds(t);
    match IndexOfPair(t, '{', '{', 0)
    case None => FillUnfolds(Tail(t), vars);
    case Some(i) =>
      var u := t[i + 2..];
      match IndexOfPair(u, '}', '}', 0)
      case None => FillUnfolds(Open(t[..i], u), vars);
      case Some(j) =>
        FillUnfolds(Slot(t[..i], u[..j], Parse(u[j + 2..])), vars);
        Regroup(t[..i], Meaning(u[..j], vars), Expand(u[j + 2..], vars));
  }

  lemma {:induction false} ParseUnfolds(t: Text)
    ensures Parse(t) ==
      match IndexOfPair(t, '{', '{', 0)
      case None => Tail(t)
      case Some(i) =>
        var u := t[i + 2..];
        match IndexOfPair(u, '}', '}', 0)
        case None => Open(t[..i], u)
        case Some(j) => Slot(t[..i], u[..j], Parse(u[j + 2..]))
  {
  }

  lemma {:induction false} FillUnfolds(x: Template, vars: Vars)
    ensures Fill(x, vars) ==
      match x
      case Tail(lit) => lit
      case Open(lit, tail) => lit + tail
      case Slot(lit, name, rest) => lit + Meaning(name, vars) + Fill(rest, vars)
  {
  }

  lemma DropTwice(t: Text, p: nat, q: nat)
    requires p + q <= |t|
    ensures t[p..][q..] == t[p + q..]
  {
  }

  datatype ScanState = Normal | InPlaceholder

  /** `replace_placeholders`. */
  method ReplacePlaceholders(t: Text, vars: Vars) returns (buf: Text)
    ensures buf == Expand(t, vars)
  {
    hide Expand, ExpandInside, IndexOfPair, Meaning;
    var p: nat := 0;
    var st := Normal;
    buf := [];
    ghost var todo := Expand(t, vars);
    assert t[0..] == t;
    while p < |t|
      invariant p <= |t| && buf + todo == Expand(t, vars)
      invariant todo == if st.Normal? then Expand(t[p..], vars) else ExpandInside(t[p..], vars)
      decreases |t| - p
    {
      match st
      case Normal =>
        ExpandCases(t[p..], vars);
        var found := IndexOfPair(t[p..], '{', '{', 0);
        if found.None? {
          buf := buf + t[p..];
          p := |t|;
          todo := [];
          NothingAfter(t, vars);
        } else {
          var head := t[p..][..found.value];
          todo := ExpandInside(t[p..][found.value + 2..], vars);
          Regroup(buf, head, todo);
          buf := buf + head;
          DropTwice(t, p, found.value + 2);
          p := p + found.value + 2;
          st := InPlaceholder;
        }
      case InPlaceholder =>
        InsideCases(t[p..], vars);
        var found := IndexOfPair(t[p..], '}', '}', 0);
        if found.None? {
          buf := buf + t[p..];
          p := |t|;
          todo := [];
          NothingAfter(t, vars);
        } else {
          var name := t[p..][..found.value];
          todo := Expand(t[p..][found.value + 2..], vars);
          DropTwice(t, p, found.value + 2);
          p := p + found.value + 2;
          st := Normal;
          var value := Lookup(name, vars);
          Regroup(buf, value, todo);
          buf := buf + value;
        }
    }
    NothingAfter(t, vars);
    assert t[p..] == [];
  }

  lemma InsideCases(u: Text, vars: Vars)
    ensures ExpandInside(u, vars) ==
      match IndexOfPair(u, '}', '}', 0)
      case None => u
      case Some(j) => Meaning(u[..j], vars) + Expand(u[j + 2..], vars)
  {
  }

  lemma NothingAfter(t: Text, vars: Vars)
    ensures t[|t|..] == [] && Expand([], vars) == [] && ExpandInside([], vars) == []
  {
  }

  /** The part of the placeholder state that looks the name up and serialises the value. */
  method Lookup(name: Text, vars: Vars) returns (value: Text)
    ensures value == Meaning(name, vars)
  {
    if |name| <= |PREFIX| || name[..|PREFIX|] != PREFIX { return []; }
    var key := name[|PREFIX|..];
    if key !in vars { return []; }
    match vars[key]
    case JsonNull => value := [];
    case JsonString(s) => value := s;
    case JsonNumber(printed) => value := printed;
    case JsonBool(b) => value := if b then "true" else "false";
    case NonScalar => value := [];
  }

  /** `process_templates` on text: NULL unless there are an input and an object. */
  method ProcessText(t: Option<Text>, json: Option<Jsonb>) returns (out: Option<Text>)
    ensures out == if t.Some? && json.Some? && json.value.JsonObject?
                   then Some(Expand(t.value, json.value.vars)) else None
  {
    if t.None? || json.None? || json.value.OtherJson? { return None; }
    var buf := ReplacePlaceholders(t.value, json.value.vars);
    return Some(buf);
  }

  function ExpandNullable(t: Option<Text>, vars: Vars): Option<Text> {
    if t.None? then None else Some(Expand(t.value, vars))
  }

  /** `process_templates` on text[]: NULL elements stay, and without an object so does everything. */
  method ProcessArray(ts: Option<seq<Option<Text>>>, json: Option<Jsonb>) returns (out: Option<seq<Option<Text>>>)
    ensures out.Some? <==> ts.Some?
    ensures ts.Some? && !(json.Some? && json.value.JsonObject?) ==> out == ts
    ensures ts.Some? && json.Some? && json.value.JsonObject? ==>
      && |out.value| == |ts.value|
      && (forall i :: 0 <= i < |ts.value| ==> (out.value[i] == None <==> ts.value[i] == None))
      && forall i :: 0 <= i < |ts.value| ==> out.value[i] == ExpandNullable(ts.value[i], json.value.vars)
  {
    if ts.None? { return None; }
    if json.None? || json.value.OtherJson? { return ts; }
    var state: seq<Option<Text>> := [];
    for i := 0 to |ts.value|
      invariant |state| == i
      invariant forall k :: 0 <= k < i ==> state[k] == ExpandNullable(ts.value[k], json.value.vars)
    {
      if ts.value[i].None? {
        state := state + [None];
      } else {
        var buf := ReplacePlaceholders(ts.value[i].value, json.value.vars);
        state := state + [Some(buf)];
      }
    }
    return Some(state);
  }
}
