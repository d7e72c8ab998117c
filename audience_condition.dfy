/** Leaf predicates of audience conditions
    (optimizely/src/datafile/audience_condition.rs), evaluated over a map of typed
    user attributes. */
module AudienceConditions {
  import opened Wrappers

  /** The integers a JSON number holds exactly: those that fit an `i64` or a `u64`. */
  type JsonInt = n: int | -0x8000_0000_0000_0000 <= n < 0x1_0000_0000_0000_0000

  /** A user attribute value: null, boolean, number or string. */
  datatype AttributeValue = Null | Bool(b: bool) | Number(n: JsonInt) | Text(s: string)

  type UserAttributes = map<string, AttributeValue>

  /** The literal of an `exact` condition: any JSON value; arrays and objects are
      folded into `Composite`. */
  datatype Literal = LitNull | LitBool(b: bool) | LitNumber(n: JsonInt) | LitString(s: string) | Composite

  /** `CustomAttributeCondition`, one variant per match type. */
  datatype CustomAttributeCondition =
    | Exact(name: string, literal: Literal)
    | Exists(name: string)
    | GreaterThan(name: string, number: JsonInt)
    | GreaterThanOrEqualTo(name: string, number: JsonInt)
    | LessThan(name: string, number: JsonInt)
    | LessThanOrEqualTo(name: string, number: JsonInt)
    | Substring(name: string, text: string)
    | Unknown

  /** `std::cmp::Ordering`. */
  datatype Ordering = Less | Equal | Greater

  /** Exact comparison of two integers (`Ord::cmp`, and what `NumOrd` promises for
      mixed signed/unsigned operands). */
  function Cmp(a: int, b: int): (o: Ordering)
    ensures o == Less <==> a < b
    ensures o == Equal <==> a == b
    ensures o == Greater <==> a > b
  {
    if a < b then Less else if a == b then Equal else Greater
  }

  /** `ExactCondition::evaluate`: false for an absent or null attribute; otherwise
      true only for a bool, number or string literal equal to an attribute of the
      same type. */
  function ExactEvaluate(name: string, literal: Literal, attributes: UserAttributes): (r: bool)
    ensures (name !in attributes || attributes[name].Null?) ==> !r
    ensures r <==> (name in attributes &&
      ((literal.LitBool? && attributes[name] == Bool(literal.b)) ||
       (literal.LitNumber? && attributes[name] == Number(literal.n)) ||
       (literal.LitString? && attributes[name] == Text(literal.s))))
  {
    if name !in attributes then false
    else
      var value := attributes[name];
      if value.Null? then false
      else
        match literal
        case LitBool(b) => value.Bool? && value.b == b
        case LitNumber(n) => value.Number? && value.n == n
        case LitString(s) => value.Text? && value.s == s
        case _ => false
  }

  /** `ExistsCondition::evaluate`: the attribute is present and not null. */
  function ExistsEvaluate(name: string, attributes: UserAttributes): (r: bool)
    ensures r <==> name in attributes && attributes[name] != Null
  {
    name in attributes && !attributes[name].Null?
  }

  /** `NumericCondition::compare`, integer branches: an attribute that is not a
      number gives None; otherwise the branch is picked by whether each operand
      reads as `u64` (non-negative) or only as `i64` (negative). Every branch
      orders the two integers exactly. */
  function Compare(name: string, number: JsonInt, attributes: UserAttributes): (r: Option<Ordering>)
    ensures r.Some? <==> name in attributes && attributes[name].Number?
    ensures r.Some? ==> r.value == Cmp(attributes[name].n, number)
  {
    if name in attributes && attributes[name].Number? then
      var a := attributes[name].n;
      if a >= 0 then
        if number >= 0 then Some(Cmp(a, number))   // u64 against u64
        else Some(NumOrd(a, number))               // u64 against i64
      else
        if number >= 0 then Some(NumOrd(a, number)) // i64 against u64
        else Some(Cmp(a, number))                  // i64 against i64
    else None
  }

  /** The `num_ord` crate's comparison of integers of different signedness. */
  function NumOrd(a: int, b: int): (o: Ordering)
    ensures o == Cmp(a, b)
  {
    if a < 0 && b >= 0 then Less
    else if a >= 0 && b < 0 then Greater
    else Cmp(a, b)
  }

  /** `t` occurs in `s` starting at index `i`. */
  predicate OccursAt(s: string, t: string, i: int)
  {
    0 <= i && i + |t| <= |s| && s[i..i + |t|] == t
  }

  /** `str::contains`: `t` occurs somewhere in `s` (the empty string occurs in every string). */
  function Contains(s: string, t: string): (r: bool)
    ensures r <==> exists i :: OccursAt(s, t, i)
    decreases |s|
  {
    if |t| > |s| then false
    else if s[..|t|] == t then assert OccursAt(s, t, 0); true
    else
      TailOccurrence(s, t);
      Contains(s[1..], t)
  }

  /** When `t` does not start `s`, it occurs in `s` iff it occurs in `s` without its first character. */
  lemma TailOccurrence(s: string, t: string)
    requires |s| > 0 && !OccursAt(s, t, 0)
    ensures (exists i :: OccursAt(s, t, i)) <==> (exists i :: OccursAt(s[1..], t, i))
  {
    if i :| OccursAt(s, t, i) {
      assert s[1..][i - 1..i - 1 + |t|] == s[i..i + |t|];
      assert OccursAt(s[1..], t, i - 1);
    }
    if i :| OccursAt(s[1..], t, i) {
      assert s[1..][i..i + |t|] == s[i + 1..i + 1 + |t|];
      assert OccursAt(s, t, i + 1);
    }
  }

  /** `SubstringCondition::evaluate`: the attribute is a string containing the literal. */
  function SubstringEvaluate(name: string, text: string, attributes: UserAttributes): (r: bool)
    ensures r <==> name in attributes && attributes[name].Text? && Contains(attributes[name].s, text)
  {
    name in attributes && match attributes[name] {
      case Text(s) => Contains(s, text)
      case _ => false
    }
  }

  /** `CustomAttributeCondition::evaluate`: the numeric match types hold when
      `compare` gives an ordering of the right kind; an unknown match type is false. */
  function EvaluateCondition(c: CustomAttributeCondition, attributes: UserAttributes): (r: bool)
    ensures c.GreaterThan? ==> (r <==> c.name in attributes && attributes[c.name].Number? && attributes[c.name].n > c.number)
    ensures c.GreaterThanOrEqualTo? ==> (r <==> c.name in attributes && attributes[c.name].Number? && attributes[c.name].n >= c.number)
    ensures c.LessThan? ==> (r <==> c.name in attributes && attributes[c.name].Number? && attributes[c.name].n < c.number)
    ensures c.LessThanOrEqualTo? ==> (r <==> c.name in attributes && attributes[c.name].Number? && attributes[c.name].n <= c.number)
    ensures c.Unknown? ==> !r
    ensures !c.Unknown? && c.name !in attributes ==> !r
  {
    match c
    case Exact(name, literal) => ExactEvaluate(name, literal, attributes)
    case Exists(name) => ExistsEvaluate(name, attributes)
    case GreaterThan(name, n) => var o := Compare(name, n, attributes); o.Some? && o.value == Greater
    case GreaterThanOrEqualTo(name, n) => var o := Compare(name, n, attributes); o.Some? && o.value != Less
    case LessThan(name, n) => var o := Compare(name, n, attributes); o.Some? && o.value == Less
    case LessThanOrEqualTo(name, n) => var o := Compare(name, n, attributes); o.Some? && o.value != Greater
    case Substring(name, text) => SubstringEvaluate(name, text, attributes)
    case Unknown => false
  }

  /** `gt` and `le` are complementary, and so are `ge` and `lt`, exactly when the
      attribute is a number; on any other attribute all four are false. */
  lemma NumericComplements(name: string, n: JsonInt, attributes: UserAttributes)
    ensures name in attributes && attributes[name].Number? ==>
      EvaluateCondition(GreaterThan(name, n), attributes) != EvaluateCondition(LessThanOrEqualTo(name, n), attributes) &&
      EvaluateCondition(GreaterThanOrEqualTo(name, n), attributes) != EvaluateCondition(LessThan(name, n), attributes)
    ensures !(name in attributes && attributes[name].Number?) ==>
      !EvaluateCondition(GreaterThan(name, n), attributes) && !EvaluateCondition(GreaterThanOrEqualTo(name, n), attributes) &&
      !EvaluateCondition(LessThan(name, n), attributes) && !EvaluateCondition(LessThanOrEqualTo(name, n), attributes)
  {
  }
}
