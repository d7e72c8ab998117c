/** Boolean condition trees (optimizely/src/datafile/boolean_condition.rs): their
    evaluation, the emptiness test, and the rule that turns a JSON array such as
    `["and", c1, c2]` into a tree. */
module BooleanConditions {
  import opened Wrappers

  /** `BooleanCondition<T>`: AND / OR over a list of children, NOT over an optional
      child, or a single leaf. */
  datatype Condition<T> =
    | And(children: seq<Condition<T>>)
    | Or(children: seq<Condition<T>>)
    | Not(child: Option<Condition<T>>)
    | Single(leaf: T)

  // ---------------------------------------------------------------------------
  // Evaluation

  /** `evaluate`: AND short-circuits like `Iterator::all`, OR like `Iterator::any`,
      a NOT without a child is false, a leaf is handed to the evaluator. */
  function Evaluate<T>(c: Condition<T>, evaluator: T -> bool): bool
    decreases c
  {
    match c
    case And(cs) => EvaluateAll(cs, evaluator)
    case Or(cs) => EvaluateAny(cs, evaluator)
    case Not(None) => false
    case Not(Some(x)) => !Evaluate(x, evaluator)
    case Single(t) => evaluator(t)
  }

  /** `children.iter().all(...)`, left to right. */
  function EvaluateAll<T>(cs: seq<Condition<T>>, evaluator: T -> bool): bool
    decreases cs
  {
    if cs == [] then true else Evaluate(cs[0], evaluator) && EvaluateAll(cs[1..], evaluator)
  }

  /** `children.iter().any(...)`, left to right. */
  function EvaluateAny<T>(cs: seq<Condition<T>>, evaluator: T -> bool): bool
    decreases cs
  {
    if cs == [] then false else Evaluate(cs[0], evaluator) || EvaluateAny(cs[1..], evaluator)
  }

  /** AND is true iff every child is true; in particular `And([])` is true. */
  lemma {:induction false} EvaluateAnd<T>(cs: seq<Condition<T>>, evaluator: T -> bool)
    ensures Evaluate(And(cs), evaluator) <==> forall i :: 0 <= i < |cs| ==> Evaluate(cs[i], evaluator)
  {
    if cs != [] {
      EvaluateAnd(cs[1..], evaluator);
      assert forall i :: 1 <= i < |cs| ==> cs[i] == cs[1..][i - 1];
    }
  }

  /** OR is true iff some child is true; in particular `Or([])` is false. */
  lemma {:induction false} EvaluateOr<T>(cs: seq<Condition<T>>, evaluator: T -> bool)
    ensures Evaluate(Or(cs), evaluator) <==> exists i :: 0 <= i < |cs| && Evaluate(cs[i], evaluator)
  {
    if cs != [] {
      EvaluateOr(cs[1..], evaluator);
      assert forall i :: 1 <= i < |cs| ==> cs[i] == cs[1..][i - 1];
    }
  }

  /** The meaning of every node kind at once: the reference semantics that
      `Evaluate` implements. */
  lemma EvaluateMeaning<T>(c: Condition<T>, evaluator: T -> bool)
    ensures c.And? ==> (Evaluate(c, evaluator) <==> forall i :: 0 <= i < |c.children| ==> Evaluate(c.children[i], evaluator))
    ensures c.Or? ==> (Evaluate(c, evaluator) <==> exists i :: 0 <= i < |c.children| && Evaluate(c.children[i], evaluator))
    ensures c.Not? ==> (Evaluate(c, evaluator) <==> c.child.Some? && !Evaluate(c.child.value, evaluator))
    ensures c.Single? ==> Evaluate(c, evaluator) == evaluator(c.leaf)
  {
    match c
    case And(cs) => EvaluateAnd(cs, evaluator);
    case Or(cs) => EvaluateOr(cs, evaluator);
    case Not(_) =>
    case Single(_) =>
  }

  // ---------------------------------------------------------------------------
  // Emptiness

  /** `is_empty`: an AND or OR without children, or a NOT without a child. */
  function IsEmpty<T>(c: Condition<T>): (r: bool)
    ensures r <==> ((c.And? || c.Or?) && c.children == []) || (c.Not? && c.child.None?)
    ensures c.Single? ==> !r
  {
    match c
    case And(cs) => |cs| == 0
    case Or(cs) => |cs| == 0
    case Not(x) => x.None?
    case Single(_) => false
  }

  /** An empty tree ignores the evaluator: it is true when it is `And([])` and
      false when it is `Or([])` or `Not(None)`. */
  lemma EmptyIgnoresEvaluator<T>(c: Condition<T>, evaluator: T -> bool)
    requires IsEmpty(c)
    ensures Evaluate(c, evaluator) <==> c.And?
  {
  }

  // ---------------------------------------------------------------------------
  // Reading a tree from its JSON array form

  /** A JSON element as the deserializer meets it: a string, a nested array, or
      any other value (object, number, bool) already decoded as a leaf `T`. */
  datatype Json<T> = Str(s: string) | Array(elements: seq<Json<T>>) | Leaf(t: T)

  /** Decoding one element as a tree: a string or a plain value is wrapped in
      `Single` (`fromStr` is how `T` decodes from a string), an array goes to
      the array rule. */
  function Parse<T>(j: Json<T>, fromStr: string -> T): Condition<T>
    decreases j
  {
    match j
    case Str(s) => Single(fromStr(s))
    case Leaf(t) => Single(t)
    case Array(es) => ParseArray(es, fromStr)
  }

  /** Decodes each element in order. */
  function ParseAll<T>(es: seq<Json<T>>, fromStr: string -> T): seq<Condition<T>>
    decreases es
  {
    if es == [] then [] else [Parse(es[0], fromStr)] + ParseAll(es[1..], fromStr)
  }

  /** The array rule of `visit_seq`: an empty array is `And([])`; a head "and" or
      "or" collects the remaining elements; a head "not" takes the next element
      (if any) and ignores the rest; any other head is the first child of an
      implicit OR. */
  function ParseArray<T>(es: seq<Json<T>>, fromStr: string -> T): Condition<T>
    decreases es
  {
    if es == [] then And([])
    else if es[0].Str? && es[0].s == "and" then And(ParseAll(es[1..], fromStr))
    else if es[0].Str? && es[0].s == "or" then Or(ParseAll(es[1..], fromStr))
    else if es[0].Str? && es[0].s == "not" then Not(if |es| > 1 then Some(Parse(es[1], fromStr)) else None)
    else Or([Parse(es[0], fromStr)] + ParseAll(es[1..], fromStr))
  }

  /** `ParseAll` keeps length and order: its k-th tree is the k-th element decoded. */
  lemma {:induction false} ParseAllAt<T>(es: seq<Json<T>>, fromStr: string -> T)
    ensures |ParseAll(es, fromStr)| == |es|
    ensures forall k :: 0 <= k < |es| ==> ParseAll(es, fromStr)[k] == Parse(es[k], fromStr)
  {
    if es != [] {
      ParseAllAt(es[1..], fromStr);
      assert forall k :: 1 <= k < |es| ==> es[k] == es[1..][k - 1];
    }
  }

  /** What `visit_seq` builds, spelled out element by element. */
  lemma ParseArrayShape<T>(es: seq<Json<T>>, fromStr: string -> T)
    ensures es == [] ==> ParseArray(es, fromStr) == And([])
    ensures |es| >= 1 && es[0] == Str("not") ==>
      ParseArray(es, fromStr) == Not(if |es| == 1 then None else Some(Parse(es[1], fromStr)))
    ensures |es| >= 1 && (es[0] == Str("and") || es[0] == Str("or")) ==>
      var c := ParseArray(es, fromStr);
      (if es[0] == Str("and") then c.And? else c.Or?) &&
      |c.children| == |es| - 1 &&
      forall k :: 1 <= k < |es| ==> c.children[k - 1] == Parse(es[k], fromStr)
    ensures |es| >= 1 && !(es[0].Str? && es[0].s in {"and", "or", "not"}) ==>
      var c := ParseArray(es, fromStr);
      c.Or? && |c.children| == |es| &&
      forall k :: 0 <= k < |es| ==> c.children[k] == Parse(es[k], fromStr)
  {
    if es != [] {
      ParseAllAt(es[1..], fromStr);
      assert forall k :: 1 <= k < |es| ==> es[k] == es[1..][k - 1];
    }
  }

  /** `visit_seq` as written: the operator is chosen from the head, then a
      `while let` loop pushes every further element, decoded, onto the vector. */
  method VisitSeq<T>(es: seq<Json<T>>, fromStr: string -> T) returns (c: Condition<T>)
    ensures c == ParseArray(es, fromStr)
    decreases es, 1
  {
    if |es| == 0 {
      return And([]);
    }
    var first := es[0];
    var isAnd := false;
    var collected: seq<Condition<T>> := [];
    if first.Str? && first.s == "and" {
      isAnd := true;
    } else if first.Str? && first.s == "or" {
    } else if first.Str? && first.s == "not" {
      if |es| > 1 {
        var x := Deserialize(es[1], fromStr);
        return Not(Some(x));
      }
      return Not(None);
    } else {
      var x := Deserialize(first, fromStr);
      collected := [x];
    }
    ghost var head := collected;
    var i := 1;
    while i < |es|
      invariant 1 <= i <= |es|
      invariant collected == head + ParseAll(es[1..i], fromStr)
    {
      var x := Deserialize(es[i], fromStr);
      ParseAllSnoc(es[1..i], es[i], fromStr);
      assert es[1..i + 1] == es[1..i] + [es[i]];
      collected := collected + [x];
      i := i + 1;
    }
    assert es[1..i] == es[1..];
    c := if isAnd then And(collected) else Or(collected);
  }

  /** `BooleanCondition::deserialize` on one element. */
  method Deserialize<T>(j: Json<T>, fromStr: string -> T) returns (c: Condition<T>)
    ensures c == Parse(j, fromStr)
    decreases j, 0
  {
    match j
    case Str(s) => c := Single(fromStr(s));
    case Leaf(t) => c := Single(t);
    case Array(es) => c := VisitSeq(es, fromStr);
  }

  lemma {:induction false} ParseAllSnoc<T>(es: seq<Json<T>>, e: Json<T>, fromStr: string -> T)
    ensures ParseAll(es + [e], fromStr) == ParseAll(es, fromStr) + [Parse(e, fromStr)]
  {
    if es != [] {
      assert (es + [e])[1..] == es[1..] + [e];
      ParseAllSnoc(es[1..], e, fromStr);
    }
  }

  // ---------------------------------------------------------------------------
  // The array form written back, and the round trip

  /** The datafile's array form of a tree: `["and", ...]`, `["or", ...]`,
      `["not"]` or `["not", x]`, and a leaf as itself. */
  function Encode<T>(c: Condition<T>): Json<T>
    decreases c
  {
    match c
    case And(cs) => Array([Str("and")] + EncodeAll(cs))
    case Or(cs) => Array([Str("or")] + EncodeAll(cs))
    case Not(None) => Array([Str("not")])
    case Not(Some(x)) => Array([Str("not"), Encode(x)])
    case Single(t) => Leaf(t)
  }

  function EncodeAll<T>(cs: seq<Condition<T>>): seq<Json<T>>
    decreases cs
  {
    if cs == [] then [] else [Encode(cs[0])] + EncodeAll(cs[1..])
  }

  /** Reading back the array form of any tree gives that tree. */
  lemma {:induction false} ParseEncode<T>(c: Condition<T>, fromStr: string -> T)
    ensures Parse(Encode(c), fromStr) == c
    decreases c, 1
  {
    match c
    case And(cs) =>
      ParseEncodeAll(cs, fromStr);
      assert ([Str("and")] + EncodeAll(cs))[1..] == EncodeAll(cs);
    case Or(cs) =>
      ParseEncodeAll(cs, fromStr);
      assert ([Str("or")] + EncodeAll(cs))[1..] == EncodeAll(cs);
    case Not(None) =>
    case Not(Some(x)) =>
      ParseEncode(x, fromStr);
    case Single(_) =>
  }

  lemma {:induction false} ParseEncodeAll<T>(cs: seq<Condition<T>>, fromStr: string -> T)
    ensures ParseAll(EncodeAll(cs), fromStr) == cs
    decreases cs, 0
  {
    if cs != [] {
      ParseEncode(cs[0], fromStr);
      ParseEncodeAll(cs[1..], fromStr);
      assert EncodeAll(cs)[1..] == EncodeAll(cs[1..]);
    }
  }
}
