/** The rule match language: JSON match expressions, the matchers they compile to, and what a matcher
    says of an event field. Formatting, regular expressions, addresses and set files are the environment. */
module Matchers {

  import opened Wrappers

  /** JSON values. The fields of an object come in whatever order they are visited. */
  datatype Json = JNull | JBool(b: bool) | JNum(n: real) | JStr(s: string)
                | JList(items: seq<Json>) | JObj(fields: seq<Field>)
  datatype Field = Field(key: string, value: Json)

  datatype NumOp = GT | LT | GE | LE

  datatype Matcher =
    | Exact(s: string) | Substring(s: string) | Regex(re: string)
    | Any(list: seq<Matcher>) | All(list: seq<Matcher>) | Not(list: seq<Matcher>)
    | InCidr(nets: seq<string>) | NotCidr(nets: seq<string>)
    | InFile(path: string) | NotInFile(path: string)
    | Num(op: NumOp, bound: real)

  /** Library behaviour the engine relies on; set files are a fixed snapshot. */
  datatype Env = Env(
    formatNum: real -> string, marshal: Json -> string,
    compiles: string -> bool, matches: (string, string) -> bool,
    cidrOk: string -> bool, isIP: string -> bool, inNet: (string, string) -> bool,
    number: string -> Option<real>, inSet: (string, string) -> bool)

  // ---- Testing ----

  function Join(parts: seq<string>): string {
    if parts == [] then "" else if |parts| == 1 then parts[0] else parts[0] + " " + Join(parts[1..])
  }

  /** fieldString */
  function FieldString(env: Env, v: Json): (r: string) {
    match v
    case JNull => ""
    case JStr(s) => s
    case JBool(b) => if b then "true" else "false"
    case JNum(n) => env.formatNum(n)
    case JList(items) => Join(seq(|items|, i requires 0 <= i < |items| => FieldString(env, items[i])))
    case JObj(_) => env.marshal(v)
  }

  /** numericFromAny */
  function NumericFromAny(env: Env, v: Json): (r: Option<real>) {
    match v
    case JNum(n) => Some(n)
    case JStr(s) => env.number(s)
    case _ => None
  }

  predicate Contains(s: string, sub: string) {
    if sub <= s then true else if s == "" then false else Contains(s[1..], sub)
  }

  predicate Compare(op: NumOp, x: real, bound: real) {
    match op
    case GT => x > bound
    case LT => x < bound
    case GE => x >= bound
    case LE => x <= bound
  }

  predicate InSomeNet(env: Env, nets: seq<string>, ip: string) {
    exists i :: 0 <= i < |nets| && env.inNet(nets[i], ip)
  }

  /** matcher.test */
  predicate Test(env: Env, m: Matcher, v: Json) {
    var s := FieldString(env, v);
    match m
    case Exact(x) => s == x
    case Substring(x) => Contains(s, x)
    case Regex(re) => env.matches(re, s)
    case Any(list) => exists i :: 0 <= i < |list| && Test(env, list[i], v)
    case All(list) => forall i :: 0 <= i < |list| ==> Test(env, list[i], v)
    case Not(list) => |list| == 1 && !Test(env, list[0], v)
    case InCidr(nets) => if !env.isIP(s) then false else InSomeNet(env, nets, s)
    case NotCidr(nets) => if !env.isIP(s) then true else !InSomeNet(env, nets, s)
    case InFile(path) => env.inSet(path, s)
    case NotInFile(path) => !env.inSet(path, s)
    case Num(op, bound) =>
      match NumericFromAny(env, v)
      case None => false
      case Some(x) => Compare(op, x, bound)
  }

  // ---- Compiling ----

  predicate HasPrefix(s: string, p: string) { p <= s }

  /** The strings of a list; anything else in it is skipped. */
  function Strings(items: seq<Json>): (r: seq<string>) {
    if items == [] then [] else (if items[0].JStr? then [items[0].s] else []) + Strings(items[1..])
  }

  /** parseCIDRList */
  function ParseCidrs(env: Env, v: Json): (r: Option<seq<string>>) {
    if !v.JStr? && !v.JList? then None
    else
      var raw := if v.JStr? then [v.s] else Strings(v.items);
      if CidrsOk(env, raw) then Some(raw) else None
  }

  predicate CidrsOk(env: Env, raw: seq<string>) {
    forall i :: 0 <= i < |raw| ==> env.cidrOk(raw[i])
  }

  /** numericMatcherValue */
  function ParseNumber(env: Env, v: Json): (r: Option<real>) {
    match v
    case JNum(n) => Some(n)
    case JStr(s) => env.number(s)
    case _ => None
  }

  function NumOpOf(k: string): NumOp {
    if k == "lt" then LT else if k == "ge" then GE else if k == "le" then LE else GT
  }

  /** A list compiles exactly when every element does. */
  function ParseItems(env: Env, items: seq<Json>): (r: Option<seq<Matcher>>)
    ensures r.Some? <==> forall i :: 0 <= i < |items| ==> Parse(env, items[i]).Some?
    ensures r.Some? ==> |r.value| == |items| && forall i :: 0 <= i < |items| ==> Parse(env, items[i]) == Some(r.value[i])
    decreases items, 0
  {
    if items == [] then Some([])
    else
      var head, rest := Parse(env, items[0]), ParseItems(env, items[1..]);
      if head.Some? && rest.Some? then Some([head.value] + rest.value) else None
  }

  /** parseMatcher */
  function Parse(env: Env, e: Json): (r: Option<Matcher>)
    decreases e, 1
  {
    match e
    case JStr(x) =>
      if HasPrefix(x, "~=") then (if env.compiles(x[2..]) then Some(Regex(x[2..])) else None)
      else if HasPrefix(x, "*=") then Some(Substring(x[2..]))
      else Some(Exact(x))
    case JBool(b) => Some(Exact(if b then "true" else "false"))
    case JNum(n) => Some(Exact(env.formatNum(n)))
    case JList(items) =>
      (match ParseItems(env, items) case None => None case Some(list) => Some(Any(list)))
    case JObj(fields) =>
      (match ParseFields(env, fields) case None => None case Some(subs) => Some(Conjunction(subs)))
    case JNull => None
  }

  /** One condition stands for itself; several, or none, form an AND. */
  function Conjunction(subs: seq<Matcher>): (r: Matcher) {
    if |subs| == 1 then subs[0] else All(subs)
  }

  /** parseObjectMatcher: one matcher per field, in visiting order; an object compiles exactly when
      every field does. */
  function ParseFields(env: Env, fields: seq<Field>): (r: Option<seq<Matcher>>)
    ensures r.Some? <==> forall i :: 0 <= i < |fields| ==> ParseField(env, fields[i]).Some?
    ensures r.Some? ==>
      |r.value| == |fields| && forall i :: 0 <= i < |fields| ==> ParseField(env, fields[i]) == Some(r.value[i])
    decreases fields, 0
  {
    if fields == [] then Some([])
    else
      var head, rest := ParseField(env, fields[0]), ParseFields(env, fields[1..]);
      if head.Some? && rest.Some? then Some([head.value] + rest.value) else None
  }

  function ParseField(env: Env, f: Field): (r: Option<Matcher>)
    decreases f, 0
  {
    var k, v := f.key, f.value;
    if k == "cidr" || k == "not_cidr" then
      match ParseCidrs(env, v)
      case None => None
      case Some(nets) => Some(if k == "cidr" then InCidr(nets) else NotCidr(nets))
    else if k == "in_file" || k == "not_in_file" then
      if !v.JStr? || v.s == "" then None
      else Some(if k == "in_file" then InFile(v.s) else NotInFile(v.s))
    else if k == "gt" || k == "lt" || k == "ge" || k == "le" then
      match ParseNumber(env, v)
      case None => None
      case Some(n) => Some(Num(NumOpOf(k), n))
    else if k == "all" then
      if !v.JList? then None
      else match ParseItems(env, v.items) case None => None case Some(list) => Some(All(list))
    else if k == "not" then
      match Parse(env, v) case None => None case Some(m) => Some(Not([m]))
    else None
  }

  // ---- Equivalence ----

  /** Both fail to compile, or both compile to matchers that agree on every value. */
  ghost predicate Equivalent(env: Env, a: Option<Matcher>, b: Option<Matcher>) {
    && (a.Some? <==> b.Some?)
    && (a.Some? ==> forall v :: Test(env, a.value, v) <==> Test(env, b.value, v))
  }

  ghost predicate AllEquivalent(env: Env, a: Option<seq<Matcher>>, b: Option<seq<Matcher>>) {
    && (a.Some? <==> b.Some?)
    && (a.Some? ==> |a.value| == |b.value|)
    && (a.Some? ==> forall i, v :: 0 <= i < |a.value| ==> (Test(env, a.value[i], v) <==> Test(env, b.value[i], v)))
  }

  /** A compiled object means that every one of its conditions holds. */
  lemma ConjunctionMeans(env: Env, subs: seq<Matcher>, v: Json)
    ensures Test(env, Conjunction(subs), v) <==> forall i :: 0 <= i < |subs| ==> Test(env, subs[i], v)
  {
  }

  lemma AnyEquivalent(env: Env, a: seq<Matcher>, b: seq<Matcher>, v: Json)
    requires |a| == |b| && forall i :: 0 <= i < |a| ==> (Test(env, a[i], v) <==> Test(env, b[i], v))
    ensures Test(env, Any(a), v) <==> Test(env, Any(b), v)
    ensures Test(env, All(a), v) <==> Test(env, All(b), v)
  {
    if Test(env, Any(a), v) {
      var i :| 0 <= i < |a| && Test(env, a[i], v);
      assert Test(env, b[i], v);
    }
    if Test(env, Any(b), v) {
      var i :| 0 <= i < |b| && Test(env, b[i], v);
      assert Test(env, a[i], v);
    }
  }

  // ---- Independence of the order in which object keys are visited ----

  /** Where a key first occurs; the length if it does not. */
  function IndexOf(fields: seq<Field>, k: string): (i: nat)
    ensures i <= |fields|
    ensures i < |fields| ==> fields[i].key == k
    ensures i == |fields| ==> forall j :: 0 <= j < |fields| ==> fields[j].key != k
  {
    if fields == [] then 0 else if fields[0].key == k then 0 else 1 + IndexOf(fields[1..], k)
  }

  /** The fields with the same keys, each key once, values related. */
  ghost predicate Paired(x: seq<Field>, y: seq<Field>)
    decreases x, 0
  {
    && (forall i :: 0 <= i < |x| ==>
          IndexOf(y, x[i].key) < |y| && Shuffled(x[i].value, y[IndexOf(y, x[i].key)].value))
    && (forall j :: 0 <= j < |y| ==> IndexOf(x, y[j].key) < |x| && IndexOf(y, y[j].key) == j)
  }

  /** The same expression, with the fields of every object, at any depth, visited in some other order. */
  ghost predicate Shuffled(a: Json, b: Json)
    decreases a
  {
    match a
    case JList(x) => b.JList? && |x| == |b.items| && forall i :: 0 <= i < |x| ==> Shuffled(x[i], b.items[i])
    case JObj(x) => b.JObj? && Paired(x, b.fields)
    case _ => a == b
  }

  lemma {:induction false} ShuffledStrings(x: seq<Json>, y: seq<Json>)
    requires |x| == |y| && forall i :: 0 <= i < |x| ==> Shuffled(x[i], y[i])
    ensures Strings(x) == Strings(y)
  {
    if x != [] {
      assert Shuffled(x[0], y[0]);
      ShuffledStrings(x[1..], y[1..]);
    }
  }

  lemma ShuffledCidrs(env: Env, a: Json, b: Json)
    requires Shuffled(a, b)
    ensures ParseCidrs(env, a) == ParseCidrs(env, b)
  {
    match a
    case JList(x) => ShuffledStrings(x, b.items);
    case _ =>
  }

  lemma {:induction false} ShuffledItems(env: Env, x: seq<Json>, y: seq<Json>)
    requires |x| == |y| && forall i :: 0 <= i < |x| ==> Shuffled(x[i], y[i])
    ensures AllEquivalent(env, ParseItems(env, x), ParseItems(env, y))
    decreases x, 0
  {
    forall i | 0 <= i < |x| ensures Equivalent(env, Parse(env, x[i]), Parse(env, y[i])) {
      ShuffledParse(env, x[i], y[i]);
    }
    ItemwiseAgree(env, x, y);
  }

  /** Element-wise agreement carries over to the OR and the AND of two lists. */
  lemma ListsAgree(env: Env, p: Option<seq<Matcher>>, q: Option<seq<Matcher>>)
    requires AllEquivalent(env, p, q) && p.Some?
    ensures forall v :: Test(env, Any(p.value), v) <==> Test(env, Any(q.value), v)
    ensures forall v :: Test(env, All(p.value), v) <==> Test(env, All(q.value), v)
  {
    forall v ensures Test(env, Any(p.value), v) <==> Test(env, Any(q.value), v)
             ensures Test(env, All(p.value), v) <==> Test(env, All(q.value), v)
    {
      AnyEquivalent(env, p.value, q.value, v);
    }
  }

  lemma NotAgrees(env: Env, a: Matcher, b: Matcher)
    requires forall v :: Test(env, a, v) <==> Test(env, b, v)
    ensures forall v :: Test(env, Not([a]), v) <==> Test(env, Not([b]), v)
  {
    forall v ensures Test(env, Not([a]), v) <==> Test(env, Not([b]), v) {
      assert [a][0] == a && [b][0] == b;
    }
  }

  lemma {:induction false} ShuffledField(env: Env, f: Field, g: Field)
    requires f.key == g.key && Shuffled(f.value, g.value)
    ensures Equivalent(env, ParseField(env, f), ParseField(env, g))
    decreases f, 0
  {
    var k, a, b := f.key, f.value, g.value;
    if k == "cidr" || k == "not_cidr" {
      ShuffledCidrs(env, a, b);
    } else if k == "all" {
      if a.JList? {
        ShuffledItems(env, a.items, b.items);
        var p, q := ParseItems(env, a.items), ParseItems(env, b.items);
        if p.Some? { ListsAgree(env, p, q); }
      }
    } else if k == "not" {
      ShuffledParse(env, a, b);
      var p, q := Parse(env, a), Parse(env, b);
      if p.Some? { NotAgrees(env, p.value, q.value); }
    } else if k == "gt" || k == "lt" || k == "ge" || k == "le" {
      assert ParseNumber(env, a) == ParseNumber(env, b);
    }
  }

  ghost predicate Twins(env: Env, f: Field, g: Field) {
    Equivalent(env, ParseField(env, f), ParseField(env, g))
  }

  ghost predicate HasTwin(env: Env, f: Field, y: seq<Field>) {
    exists j :: 0 <= j < |y| && Twins(env, f, y[j])
  }

  /** Every field of the first list has a twin in the second. */
  ghost predicate Covered(env: Env, x: seq<Field>, y: seq<Field>) {
    forall i :: 0 <= i < |x| ==> HasTwin(env, x[i], y)
  }

  lemma TwinsSym(env: Env, f: Field, g: Field)
    requires Twins(env, f, g)
    ensures Twins(env, g, f)
  {
  }

  lemma {:induction false} PairedFields(env: Env, x: seq<Field>, y: seq<Field>)
    requires Paired(x, y)
    ensures Covered(env, x, y) && Covered(env, y, x)
    decreases x, 1
  {
    forall i | 0 <= i < |x| ensures HasTwin(env, x[i], y) {
      var j := IndexOf(y, x[i].key);
      ShuffledField(env, x[i], y[j]);
      assert Twins(env, x[i], y[j]);
    }
    forall j | 0 <= j < |y| ensures HasTwin(env, y[j], x) {
      var i := IndexOf(x, y[j].key);
      assert IndexOf(y, x[i].key) == j;
      ShuffledField(env, x[i], y[j]);
      TwinsSym(env, x[i], y[j]);
    }
  }

  lemma CoveredCompiles(env: Env, x: seq<Field>, y: seq<Field>)
    requires Covered(env, y, x) && ParseFields(env, x).Some?
    ensures ParseFields(env, y).Some?
  {
    forall j | 0 <= j < |y| ensures ParseField(env, y[j]).Some? {
      assert HasTwin(env, y[j], x);
      var i :| 0 <= i < |x| && Twins(env, y[j], x[i]);
      assert ParseField(env, x[i]).Some?;
    }
  }

  /** If every condition on the left holds of v, so does every condition on the right. */
  lemma CoveredImplies(env: Env, x: seq<Field>, y: seq<Field>, p: seq<Matcher>, q: seq<Matcher>, v: Json)
    requires ParseFields(env, x) == Some(p) && ParseFields(env, y) == Some(q) && Covered(env, y, x)
    requires Test(env, Conjunction(p), v)
    ensures Test(env, Conjunction(q), v)
  {
    ConjunctionMeans(env, p, v);
    ConjunctionMeans(env, q, v);
    forall j | 0 <= j < |q| ensures Test(env, q[j], v) {
      assert HasTwin(env, y[j], x);
      var i :| 0 <= i < |x| && Twins(env, y[j], x[i]);
      assert ParseField(env, x[i]) == Some(p[i]) && ParseField(env, y[j]) == Some(q[j]);
      assert Test(env, p[i], v);
    }
  }

  lemma CoveredTests(env: Env, x: seq<Field>, y: seq<Field>, p: seq<Matcher>, q: seq<Matcher>, v: Json)
    requires Covered(env, x, y) && Covered(env, y, x)
    requires ParseFields(env, x) == Some(p) && ParseFields(env, y) == Some(q)
    ensures Test(env, Conjunction(p), v) <==> Test(env, Conjunction(q), v)
  {
    if Test(env, Conjunction(p), v) { CoveredImplies(env, x, y, p, q, v); }
    if Test(env, Conjunction(q), v) { CoveredImplies(env, y, x, q, p, v); }
  }

  /** Objects whose fields correspond compile together and mean the same. */
  lemma CoveredAgree(env: Env, x: seq<Field>, y: seq<Field>)
    requires Covered(env, x, y) && Covered(env, y, x)
    ensures Equivalent(env, Parse(env, JObj(x)), Parse(env, JObj(y)))
  {
    hide Test, Covered;
    var p, q := ParseFields(env, x), ParseFields(env, y);
    if p.Some? { CoveredCompiles(env, x, y); }
    if q.Some? { CoveredCompiles(env, y, x); }
    if p.Some? {
      forall v ensures Test(env, Conjunction(p.value), v) <==> Test(env, Conjunction(q.value), v) {
        CoveredTests(env, x, y, p.value, q.value, v);
      }
    }
  }

  /** Order independence: visiting object keys in another order, at any depth, changes neither whether
      an expression compiles nor what the compiled matcher says of any value. */
  lemma {:induction false} ShuffledParse(env: Env, a: Json, b: Json)
    requires Shuffled(a, b)
    ensures Equivalent(env, Parse(env, a), Parse(env, b))
    decreases a, 1
  {
    match a
    case JList(x) =>
      ShuffledItems(env, x, b.items);
      if ParseItems(env, x).Some? { ListsAgree(env, ParseItems(env, x), ParseItems(env, b.items)); }
    case JObj(x) =>
      PairedFields(env, x, b.fields);
      CoveredAgree(env, x, b.fields);
    case _ =>
  }

  // ---- Rewriting the negative forms away ----

  /** Rewrites every `not_cidr` and `not_in_file`, at any depth, into `not` of its positive form. Each
      object becomes an explicit AND of one-field objects, so that a rewritten field cannot collide with
      a `not` that is already there. */
  function Positive(e: Json): (r: Json)
    decreases e, 1
  {
    match e
    case JList(items) => JList(PositiveItems(items))
    case JObj(fields) => JObj([Field("all", JList(PositiveFields(fields)))])
    case _ => e
  }

  function PositiveItems(items: seq<Json>): (r: seq<Json>)
    ensures |r| == |items| && forall i :: 0 <= i < |items| ==> r[i] == Positive(items[i])
    decreases items, 0
  {
    if items == [] then [] else [Positive(items[0])] + PositiveItems(items[1..])
  }

  function PositiveFields(fields: seq<Field>): (r: seq<Json>)
    ensures |r| == |fields| && forall i :: 0 <= i < |fields| ==> r[i] == JObj([PositiveField(fields[i])])
    decreases fields, 0
  {
    if fields == [] then [] else [JObj([PositiveField(fields[0])])] + PositiveFields(fields[1..])
  }

  function PositiveField(f: Field): (r: Field)
    decreases f, 0
  {
    if f.key == "not_cidr" then Field("not", JObj([Field("cidr", f.value)]))
    else if f.key == "not_in_file" then Field("not", JObj([Field("in_file", f.value)]))
    else if f.key == "all" && f.value.JList? then Field("all", JList(PositiveItems(f.value.items)))
    else if f.key == "not" then Field("not", Positive(f.value))
    else f
  }

  /** No condition of the expression is of a negative form. */
  ghost predicate NoNegatives(e: Json)
    decreases e, 1
  {
    match e
    case JList(items) => forall i :: 0 <= i < |items| ==> NoNegatives(items[i])
    case JObj(fields) => forall i :: 0 <= i < |fields| ==> NoNegativeIn(fields[i])
    case _ => true
  }

  ghost predicate NoNegativeIn(f: Field)
    decreases f, 0
  {
    && f.key != "not_cidr" && f.key != "not_in_file"
    && (f.key == "all" && f.value.JList? ==> forall i :: 0 <= i < |f.value.items| ==> NoNegatives(f.value.items[i]))
    && (f.key == "not" ==> NoNegatives(f.value))
  }

  /** The rewriting leaves no negative form. */
  lemma {:induction false} PositiveHasNone(e: Json)
    ensures NoNegatives(Positive(e))
    decreases e, 1
  {
    match e
    case JList(items) =>
      forall i | 0 <= i < |items| ensures NoNegatives(Positive(items[i])) { PositiveHasNone(items[i]); }
    case JObj(fields) =>
      var list := PositiveFields(fields);
      forall i | 0 <= i < |list| ensures NoNegatives(list[i]) { PositiveFieldHasNone(fields[i]); }
      assert NoNegativeIn(Field("all", JList(list)));
    case _ =>
  }

  lemma {:induction false} PositiveFieldHasNone(f: Field)
    ensures NoNegativeIn(PositiveField(f))
    decreases f, 0
  {
    if f.key == "not_cidr" || f.key == "not_in_file" {
      var g := if f.key == "not_cidr" then Field("cidr", f.value) else Field("in_file", f.value);
      assert NoNegativeIn(g) && NoNegatives(JObj([g]));
    } else if f.key == "all" && f.value.JList? {
      var items := f.value.items;
      forall i | 0 <= i < |items| ensures NoNegatives(Positive(items[i])) { PositiveHasNone(items[i]); }
    } else if f.key == "not" {
      PositiveHasNone(f.value);
    }
  }

  lemma SingleField(env: Env, f: Field)
    ensures Parse(env, JObj([f])) == ParseField(env, f)
  {
    var p := ParseFields(env, [f]);
    assert [f][0] == f;
    if ParseField(env, f).Some? {
      assert forall i :: 0 <= i < |[f]| ==> ParseField(env, [f][i]).Some?;
      assert p.Some? && p.value[0] == ParseField(env, f).value;
    } else {
      assert !ParseField(env, [f][0]).Some?;
    }
  }

  lemma NegativeForms(env: Env, v: Json)
    ensures Equivalent(env, ParseField(env, Field("not_cidr", v)), ParseField(env, PositiveField(Field("not_cidr", v))))
    ensures Equivalent(env, ParseField(env, Field("not_in_file", v)),
                       ParseField(env, PositiveField(Field("not_in_file", v))))
  {
    SingleField(env, Field("cidr", v));
    SingleField(env, Field("in_file", v));
    hide Test;
    var nets := ParseCidrs(env, v);
    if nets.Some? { NotInCidr(env, nets.value); }
    if v.JStr? { NotInSet(env, v.s); }
  }

  lemma NotInCidr(env: Env, nets: seq<string>)
    ensures forall x :: Test(env, Not([InCidr(nets)]), x) <==> Test(env, NotCidr(nets), x)
  {
    forall x ensures Test(env, Not([InCidr(nets)]), x) <==> Test(env, NotCidr(nets), x) {
      assert [InCidr(nets)][0] == InCidr(nets);
    }
  }

  lemma NotInSet(env: Env, path: string)
    ensures forall x :: Test(env, Not([InFile(path)]), x) <==> Test(env, NotInFile(path), x)
  {
    forall x ensures Test(env, Not([InFile(path)]), x) <==> Test(env, NotInFile(path), x) {
      assert [InFile(path)][0] == InFile(path);
    }
  }

  lemma {:induction false} PositiveItemsAgree(env: Env, items: seq<Json>)
    ensures AllEquivalent(env, ParseItems(env, items), ParseItems(env, PositiveItems(items)))
    decreases items, 0
  {
    var r := PositiveItems(items);
    forall i | 0 <= i < |items| ensures Equivalent(env, Parse(env, items[i]), Parse(env, r[i])) {
      PositiveAgrees(env, items[i]);
    }
    ItemwiseAgree(env, items, r);
  }

  /** Lists whose elements are equivalent one by one compile together. */
  lemma ItemwiseAgree(env: Env, x: seq<Json>, y: seq<Json>)
    requires |x| == |y| && forall i :: 0 <= i < |x| ==> Equivalent(env, Parse(env, x[i]), Parse(env, y[i]))
    ensures AllEquivalent(env, ParseItems(env, x), ParseItems(env, y))
  {
    var p, q := ParseItems(env, x), ParseItems(env, y);
    assert p.Some? <==> q.Some? by {
      if !p.Some? {
        var i :| 0 <= i < |x| && !Parse(env, x[i]).Some?;
        assert Equivalent(env, Parse(env, x[i]), Parse(env, y[i]));
      } else {
        assert forall i :: 0 <= i < |x| ==> Equivalent(env, Parse(env, x[i]), Parse(env, y[i]));
      }
    }
    if p.Some? {
      forall i, v | 0 <= i < |x| ensures Test(env, p.value[i], v) <==> Test(env, q.value[i], v) {
        assert Equivalent(env, Parse(env, x[i]), Parse(env, y[i]));
      }
    }
  }

  lemma {:induction false} PositiveFieldAgrees(env: Env, f: Field)
    ensures Equivalent(env, ParseField(env, f), ParseField(env, PositiveField(f)))
    decreases f, 0
  {
    if f.key == "not_cidr" || f.key == "not_in_file" {
      NegativeForms(env, f.value);
    } else if f.key == "all" && f.value.JList? {
      PositiveItemsAgree(env, f.value.items);
      var p := ParseItems(env, f.value.items);
      if p.Some? { ListsAgree(env, p, ParseItems(env, PositiveItems(f.value.items))); }
    } else if f.key == "not" {
      PositiveAgrees(env, f.value);
      var p := Parse(env, f.value);
      if p.Some? { NotAgrees(env, p.value, Parse(env, Positive(f.value)).value); }
    }
  }

  lemma {:induction false} PositiveFieldsAgree(env: Env, fields: seq<Field>)
    ensures AllEquivalent(env, ParseFields(env, fields), ParseItems(env, PositiveFields(fields)))
    decreases fields, 0
  {
    var r := PositiveFields(fields);
    var p, q := ParseFields(env, fields), ParseItems(env, r);
    forall i | 0 <= i < |fields| ensures Equivalent(env, ParseField(env, fields[i]), Parse(env, r[i])) {
      PositiveFieldAgrees(env, fields[i]);
      SingleField(env, PositiveField(fields[i]));
    }
    assert p.Some? <==> q.Some? by {
      if !p.Some? {
        var i :| 0 <= i < |fields| && !ParseField(env, fields[i]).Some?;
        assert Equivalent(env, ParseField(env, fields[i]), Parse(env, r[i]));
      } else {
        assert forall i :: 0 <= i < |fields| ==> Equivalent(env, ParseField(env, fields[i]), Parse(env, r[i]));
      }
    }
    if p.Some? {
      forall i, v | 0 <= i < |fields| ensures Test(env, p.value[i], v) <==> Test(env, q.value[i], v) {
        assert Equivalent(env, ParseField(env, fields[i]), Parse(env, r[i]));
      }
    }
  }

  /** The rewriting preserves meaning: the same expressions compile, and they say the same of every value. */
  lemma {:induction false} PositiveAgrees(env: Env, e: Json)
    ensures Equivalent(env, Parse(env, e), Parse(env, Positive(e)))
    decreases e, 1
  {
    match e
    case JList(items) =>
      PositiveItemsAgree(env, items);
      if ParseItems(env, items).Some? { ListsAgree(env, ParseItems(env, items), ParseItems(env, PositiveItems(items))); }
    case JObj(fields) =>
      PositiveFieldsAgree(env, fields);
      var p, q := ParseFields(env, fields), ParseItems(env, PositiveFields(fields));
      SingleField(env, Field("all", JList(PositiveFields(fields))));
      if p.Some? {
        ListsAgree(env, p, q);
        forall v ensures Test(env, Conjunction(p.value), v) <==> Test(env, All(q.value), v) {
          ConjunctionMeans(env, p.value, v);
        }
      }
    case _ =>
  }

  // ---- Rules over events ----

  type Event = map<string, Json>

  function FieldOf(event: Event, key: string): Json {
    if key in event then event[key] else JNull
  }

  /** matchRule and matchRuleStep: a non-empty set of conditions, all of which hold; "type" reads the log type. */
  predicate MatchAll(env: Env, conditions: map<string, Matcher>, logType: string, event: Event) {
    && |conditions| > 0
    && forall key :: key in conditions ==>
         Test(env, conditions[key], if key == "type" then JStr(logType) else FieldOf(event, key))
  }
}
