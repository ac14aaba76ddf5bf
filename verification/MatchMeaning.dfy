/** What a match expression says of a value, read off the JSON expression itself, and the fact that compiling
    and testing it comes to that. */
module MatchMeaning {

  import opened Wrappers
  import opened Matchers

  // ---- The pieces of a condition ----

  /** x is a stretch of s. */
  ghost predicate Occurs(x: string, s: string) {
    exists a, b :: s == a + x + b
  }

  ghost predicate StartsWith(s: string, p: string) {
    |p| <= |s| && forall i :: 0 <= i < |p| ==> s[i] == p[i]
  }

  /** The networks a cidr condition names: one string, or the strings of a list. */
  ghost predicate NamesNet(e: Json, net: string) {
    e == JStr(net) || (e.JList? && JStr(net) in e.items)
  }

  /** The number in a value: itself, or what its text reads as. */
  ghost predicate IsNumber(env: Env, v: Json, x: real) {
    v == JNum(x) || (v.JStr? && env.number(v.s) == Some(x))
  }

  ghost predicate InNetOf(env: Env, e: Json, text: string) {
    env.isIP(text) && exists net :: NamesNet(e, net) && env.inNet(net, text)
  }

  // ---- Meaning ----

  /** The expression holds of the value. */
  ghost predicate Holds(env: Env, e: Json, v: Json)
    decreases e, 1
  {
    var text := FieldString(env, v);
    match e
    case JStr(x) =>
      if StartsWith(x, "~=") then env.matches(x[2..], text)
      else if StartsWith(x, "*=") then Occurs(x[2..], text)
      else text == x
    case JBool(b) => text == if b then "true" else "false"
    case JNum(n) => text == env.formatNum(n)
    case JList(items) => exists i :: 0 <= i < |items| && Holds(env, items[i], v)
    case JObj(fields) => forall i :: 0 <= i < |fields| ==> KeyHolds(env, fields[i], v)
    case JNull => false
  }

  /** One key of an object condition holds of the value. */
  ghost predicate KeyHolds(env: Env, f: Field, v: Json)
    decreases f, 0
  {
    var text, e := FieldString(env, v), f.value;
    && (f.key == "cidr" ==> InNetOf(env, e, text))
    && (f.key == "not_cidr" ==> !InNetOf(env, e, text))
    && (f.key == "in_file" ==> e.JStr? && env.inSet(e.s, text))
    && (f.key == "not_in_file" ==> e.JStr? && !env.inSet(e.s, text))
    && (f.key == "gt" ==> exists x, y :: IsNumber(env, v, x) && IsNumber(env, e, y) && x > y)
    && (f.key == "lt" ==> exists x, y :: IsNumber(env, v, x) && IsNumber(env, e, y) && x < y)
    && (f.key == "ge" ==> exists x, y :: IsNumber(env, v, x) && IsNumber(env, e, y) && x >= y)
    && (f.key == "le" ==> exists x, y :: IsNumber(env, v, x) && IsNumber(env, e, y) && x <= y)
    && (f.key == "all" ==> e.JList? && forall i :: 0 <= i < |e.items| ==> Holds(env, e.items[i], v))
    && (f.key == "not" ==> !Holds(env, e, v))
  }

  /** The expression is one the engine accepts. */
  ghost predicate WellFormed(env: Env, e: Json)
    decreases e, 1
  {
    match e
    case JStr(x) => StartsWith(x, "~=") ==> env.compiles(x[2..])
    case JList(items) => forall i :: 0 <= i < |items| ==> WellFormed(env, items[i])
    case JObj(fields) => forall i :: 0 <= i < |fields| ==> KeyWellFormed(env, fields[i])
    case JNull => false
    case _ => true
  }

  ghost predicate KeyWellFormed(env: Env, f: Field)
    decreases f, 0
  {
    var e := f.value;
    if f.key in {"cidr", "not_cidr"} then
      (e.JStr? || e.JList?) && forall net :: NamesNet(e, net) ==> env.cidrOk(net)
    else if f.key in {"in_file", "not_in_file"} then e.JStr? && e.s != ""
    else if f.key in {"gt", "lt", "ge", "le"} then exists x :: IsNumber(env, e, x)
    else if f.key == "all" then e.JList? && forall i :: 0 <= i < |e.items| ==> WellFormed(env, e.items[i])
    else f.key == "not" && WellFormed(env, e)
  }

  // ---- The pieces agree ----

  lemma {:induction false} ContainsIff(s: string, x: string)
    ensures Contains(s, x) <==> Occurs(x, s)
  {
    if x <= s {
      assert s == [] + x + s[|x|..];
    } else if s != "" {
      ContainsIff(s[1..], x);
      if Occurs(x, s[1..]) {
        var a, b :| s[1..] == a + x + b;
        assert s == ([s[0]] + a) + x + b;
      }
      if Occurs(x, s) {
        var a, b :| s == a + x + b;
        assert a == [] ==> s == x + b;
        assert s[1..] == a[1..] + x + b;
      }
    } else {
      forall a, b ensures s != a + x + b { assert |a + x + b| >= |x|; }
    }
  }

  lemma PrefixIff(s: string, p: string)
    ensures HasPrefix(s, p) <==> StartsWith(s, p)
  {
    if StartsWith(s, p) { assert s[..|p|] == p; }
  }

  lemma {:induction false} StringsAre(items: seq<Json>, x: string)
    ensures x in Strings(items) <==> JStr(x) in items
  {
    if items != [] {
      StringsAre(items[1..], x);
      assert items == [items[0]] + items[1..];
    }
  }

  /** A list of networks compiles to exactly the networks it names, if they are all valid. */
  lemma CidrsAre(env: Env, e: Json)
    ensures ParseCidrs(env, e).Some? <==>
      (e.JStr? || e.JList?) && forall net :: NamesNet(e, net) ==> env.cidrOk(net)
    ensures ParseCidrs(env, e).Some? ==> forall net :: net in ParseCidrs(env, e).value <==> NamesNet(e, net)
  {
    if e.JStr? || e.JList? {
      var raw := if e.JStr? then [e.s] else Strings(e.items);
      forall net ensures net in raw <==> NamesNet(e, net) {
        if e.JList? { StringsAre(e.items, net); }
      }
      assert CidrsOk(env, raw) <==> forall net :: net in raw ==> env.cidrOk(net);
    }
  }

  lemma NetsAgree(env: Env, e: Json, nets: seq<string>, text: string)
    requires forall net :: net in nets <==> NamesNet(e, net)
    ensures InSomeNet(env, nets, text) <==> exists net :: NamesNet(e, net) && env.inNet(net, text)
  {
    if InSomeNet(env, nets, text) {
      var i :| 0 <= i < |nets| && env.inNet(nets[i], text);
      assert nets[i] in nets;
    }
    if net :| NamesNet(e, net) && env.inNet(net, text) {
      var i :| 0 <= i < |nets| && nets[i] == net;
    }
  }

  /** Both readings of numbers are that of IsNumber. */
  lemma NumbersAre(env: Env, v: Json, x: real)
    ensures NumericFromAny(env, v) == Some(x) <==> IsNumber(env, v, x)
    ensures ParseNumber(env, v) == Some(x) <==> IsNumber(env, v, x)
  {
  }

  // ---- Compiling and testing comes to the meaning ----

  lemma CidrMeans(env: Env, f: Field, v: Json)
    requires f.key == "cidr" || f.key == "not_cidr"
    ensures Means(env, ParseField(env, f), KeyWellFormed(env, f), KeyHolds(env, f, v), v)
  {
    CidrsAre(env, f.value);
    var p := ParseCidrs(env, f.value);
    if p.Some? { NetsAgree(env, f.value, p.value, FieldString(env, v)); }
  }

  lemma NumberMeans(env: Env, f: Field, v: Json)
    requires f.key in {"gt", "lt", "ge", "le"}
    ensures Means(env, ParseField(env, f), KeyWellFormed(env, f), KeyHolds(env, f, v), v)
  {
    forall u, x ensures (NumericFromAny(env, u) == Some(x) <==> IsNumber(env, u, x)) &&
                        (ParseNumber(env, u) == Some(x) <==> IsNumber(env, u, x))
    {
      NumbersAre(env, u, x);
    }
    var y := ParseNumber(env, f.value);
    if y.Some? { assert IsNumber(env, f.value, y.value); }
    var x := NumericFromAny(env, v);
    if x.Some? { assert IsNumber(env, v, x.value); }
  }

  lemma OtherMeans(env: Env, f: Field, v: Json)
    requires f.key !in {"cidr", "not_cidr", "gt", "lt", "ge", "le", "all", "not"}
    ensures Means(env, ParseField(env, f), KeyWellFormed(env, f), KeyHolds(env, f, v), v)
  {
  }

  /** Compiled exactly when accepted, and then testing gives the meaning. */
  ghost predicate Means(env: Env, compiled: Option<Matcher>, accepted: bool, holds: bool, v: Json) {
    (compiled.Some? <==> accepted) && (compiled.Some? ==> (Test(env, compiled.value, v) <==> holds))
  }

  lemma {:induction false} KeyMeans(env: Env, f: Field, v: Json)
    ensures Means(env, ParseField(env, f), KeyWellFormed(env, f), KeyHolds(env, f, v), v)
    decreases f, 0
  {
    if f.key == "cidr" || f.key == "not_cidr" {
      CidrMeans(env, f, v);
    } else if f.key in {"gt", "lt", "ge", "le"} {
      NumberMeans(env, f, v);
    } else if f.key == "all" {
      if f.value.JList? { ItemsMean(env, f.value.items, v); }
    } else if f.key == "not" {
      ExpressionMeans(env, f.value, v);
    } else {
      OtherMeans(env, f, v);
    }
  }

  /** A list compiles when all its elements are accepted, and then to their meanings one by one. */
  lemma {:induction false} ItemsMean(env: Env, items: seq<Json>, v: Json)
    ensures var p := ParseItems(env, items);
            && (p.Some? <==> forall i :: 0 <= i < |items| ==> WellFormed(env, items[i]))
            && (p.Some? ==> |p.value| == |items|)
            && (p.Some? ==>
                  forall i :: 0 <= i < |items| ==> (Test(env, p.value[i], v) <==> Holds(env, items[i], v)))
    decreases items, 0
  {
    forall i | 0 <= i < |items|
      ensures Means(env, Parse(env, items[i]), WellFormed(env, items[i]), Holds(env, items[i], v), v)
    {
      ExpressionMeans(env, items[i], v);
    }
  }

  lemma {:induction false} KeysMean(env: Env, fields: seq<Field>, v: Json)
    ensures var p := ParseFields(env, fields);
            && (p.Some? <==> forall i :: 0 <= i < |fields| ==> KeyWellFormed(env, fields[i]))
            && (p.Some? ==> |p.value| == |fields|)
            && (p.Some? ==>
                  forall i :: 0 <= i < |fields| ==> (Test(env, p.value[i], v) <==> KeyHolds(env, fields[i], v)))
    decreases fields, 0
  {
    forall i | 0 <= i < |fields|
      ensures Means(env, ParseField(env, fields[i]), KeyWellFormed(env, fields[i]), KeyHolds(env, fields[i], v), v)
    {
      KeyMeans(env, fields[i], v);
    }
  }

  /** The engine says of every expression and every value what the expression means: it compiles exactly the
      accepted ones, and the compiled matcher holds of a value exactly when the expression does. */
  lemma {:induction false} ExpressionMeans(env: Env, e: Json, v: Json)
    ensures Means(env, Parse(env, e), WellFormed(env, e), Holds(env, e, v), v)
    decreases e, 1
  {
    match e
    case JStr(x) =>
      PrefixIff(x, "~=");
      PrefixIff(x, "*=");
      if StartsWith(x, "*=") { ContainsIff(FieldString(env, v), x[2..]); }
    case JList(items) =>
      ItemsMean(env, items, v);
    case JObj(fields) =>
      KeysMean(env, fields, v);
      var p := ParseFields(env, fields);
      if p.Some? { ConjunctionMeans(env, p.value, v); }
    case _ =>
  }

  // ---- Field text ----

  function ListText(env: Env, items: seq<Json>): string { FieldString(env, JList(items)) }

  /** A list's text is that of its elements with single spaces between them. */
  lemma ListTextLaws(env: Env, x: Json, a: seq<Json>, b: seq<Json>)
    ensures ListText(env, []) == "" && ListText(env, [x]) == FieldString(env, x)
    ensures a != [] && b != [] ==> ListText(env, a + b) == ListText(env, a) + " " + ListText(env, b)
  {
    var p := seq(|a|, i requires 0 <= i < |a| => FieldString(env, a[i]));
    var q := seq(|b|, i requires 0 <= i < |b| => FieldString(env, b[i]));
    var c := a + b;
    assert seq(|c|, i requires 0 <= i < |c| => FieldString(env, c[i])) == p + q;
    if a != [] && b != [] { JoinConcat(p, q); }
  }

  lemma {:induction false} JoinConcat(p: seq<string>, q: seq<string>)
    requires p != [] && q != []
    ensures Join(p + q) == Join(p) + " " + Join(q)
  {
    assert (p + q)[1..] == p[1..] + q;
    if |p| > 1 {
      JoinConcat(p[1..], q);
    } else {
      assert p[1..] + q == q;
    }
  }

  /** The text of the other values. */
  lemma ScalarText(env: Env, s: string, n: real, fields: seq<Field>)
    ensures FieldString(env, JNull) == "" && FieldString(env, JStr(s)) == s
    ensures FieldString(env, JBool(true)) == "true" && FieldString(env, JBool(false)) == "false"
    ensures FieldString(env, JNum(n)) == env.formatNum(n) && FieldString(env, JObj(fields)) == env.marshal(JObj(fields))
  {
  }

  // ---- Whole rules ----

  /** A rule or a sequence step matches an event exactly when it has conditions and each of them holds: the
      one called "type" of the log type, every other of the event's field of that name, null if missing. */
  lemma RuleMeans(env: Env, rule: map<string, Json>, conditions: map<string, Matcher>, logType: string, event: Event)
    requires conditions.Keys == rule.Keys && forall key :: key in rule ==> Parse(env, rule[key]) == Some(conditions[key])
    ensures MatchAll(env, conditions, logType, event) <==>
      && rule != map[]
      && ("type" in rule ==> Holds(env, rule["type"], JStr(logType)))
      && (forall key :: key in rule && key != "type" ==>
            Holds(env, rule[key], if key in event then event[key] else JNull))
  {
    forall key, v | key in rule ensures Test(env, conditions[key], v) <==> Holds(env, rule[key], v) {
      ExpressionMeans(env, rule[key], v);
    }
    assert |conditions| > 0 <==> rule != map[];
  }
}
