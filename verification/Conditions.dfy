/** Threshold conditions of the form `value OP number`: their parser, and the language it accepts. */
module Conditions {
  import opened Wrappers
  import opened Text

  datatype Op = Ge | Le | Ne | Eq | Gt | Lt

  datatype Comparison = Comparison(op: Op, threshold: real) {
    predicate Holds(v: real) {
      match op
      case Gt => v > threshold
      case Lt => v < threshold
      case Ge => v >= threshold
      case Le => v <= threshold
      case Eq => v == threshold
      case Ne => v != threshold
    }
  }

  function OpText(op: Op): string {
    match op
    case Ge => ">="
    case Le => "<="
    case Ne => "!="
    case Eq => "=="
    case Gt => ">"
    case Lt => "<"
  }

  datatype ParseError = UnsupportedLhs | InvalidThreshold | NoOperator

  /** The order in which operators are searched: the two-character ones first. */
  const SEARCH_ORDER: seq<Op> := [Ge, Le, Ne, Eq, Gt, Lt]

  /** The first operator of `ops` that occurs in the expression decides the split. */
  function ParseWith(parseFloat: string -> Option<real>, ops: seq<Op>, expr: string): Result<Comparison, ParseError> {
    if ops == [] then Err(NoOperator)
    else
      var op := OpText(ops[0]);
      match Index(expr, op)
      case None => ParseWith(parseFloat, ops[1..], expr)
      case Some(i) =>
        if Trim(expr[..i]) != "value" then Err(UnsupportedLhs)
        else
          match parseFloat(Trim(expr[i + |op|..]))
          case None => Err(InvalidThreshold)
          case Some(t) => Ok(Comparison(ops[0], t))
  }

  function ParseCondition(parseFloat: string -> Option<real>, expr: string): Result<Comparison, ParseError> {
    ParseWith(parseFloat, SEARCH_ORDER, Trim(expr))
  }

  predicate OpChar(c: char) {
    c == '>' || c == '<' || c == '=' || c == '!'
  }

  predicate NoOpChars(s: string) {
    forall i :: 0 <= i < |s| ==> !OpChar(s[i])
  }

  /** No number literal contains an operator character. */
  ghost predicate NumberSyntax(parseFloat: string -> Option<real>) {
    forall s :: parseFloat(s).Some? ==> NoOpChars(s)
  }

  /** `value OP literal` with any white space around the three parts. */
  ghost predicate Written(parseFloat: string -> Option<real>, expr: string, c: Comparison,
                          w0: string, w1: string, w2: string, literal: string, w3: string) {
    && Blank(w0) && Blank(w1) && Blank(w2) && Blank(w3)
    && Trimmed(literal) && parseFloat(literal) == Some(c.threshold)
    && expr == w0 + "value" + w1 + OpText(c.op) + w2 + literal + w3
  }

  ghost predicate Denotes(parseFloat: string -> Option<real>, expr: string, c: Comparison) {
    exists w0, w1, w2, literal, w3 :: Written(parseFloat, expr, c, w0, w1, w2, literal, w3)
  }

  // ----- everything accepted is a written comparison -----

  /** The expression splits at an operator into a left part `value` and a right part that is a number. */
  ghost predicate SplitsAt(parseFloat: string -> Option<real>, expr: string, c: Comparison, i: nat) {
    && OccursAt(expr, OpText(c.op), i)
    && Trim(expr[..i]) == "value"
    && parseFloat(Trim(expr[i + |OpText(c.op)|..])) == Some(c.threshold)
  }

  lemma {:induction false} AcceptedSplit(parseFloat: string -> Option<real>, ops: seq<Op>, expr: string, c: Comparison)
    returns (i: nat)
    requires ParseWith(parseFloat, ops, expr) == Ok(c)
    ensures SplitsAt(parseFloat, expr, c, i)
  {
    var found := Index(expr, OpText(ops[0]));
    if found == None {
      i := AcceptedSplit(parseFloat, ops[1..], expr, c);
    } else {
      i := found.value;
    }
  }

  lemma Regroup(l: string, l1: string, v: string, r1: string, op: string, l2: string, n: string, r2: string, r: string)
    ensures l + ((l1 + v + r1) + op + (l2 + n + r2)) + r == (l + l1) + v + r1 + op + l2 + n + (r2 + r)
  {}

  lemma SplitConcat(s: string, p: string, i: nat)
    requires OccursAt(s, p, i)
    ensures s == s[..i] + p + s[i + |p|..]
  {}

  lemma PartsWritten(expr: string, left: string, op: string, right: string)
    returns (w0: string, w1: string, w2: string, w3: string)
    requires Trim(expr) == left + op + right
    ensures Blank(w0) && Blank(w1) && Blank(w2) && Blank(w3)
    ensures expr == w0 + Trim(left) + w1 + op + w2 + Trim(right) + w3
  {
    var l, r := TrimParts(expr);
    var l1, r1 := TrimParts(left);
    var l2, r2 := TrimParts(right);
    Regroup(l, l1, Trim(left), r1, op, l2, Trim(right), r2, r);
    w0, w1, w2, w3 := l + l1, r1, l2, r2 + r;
  }

  lemma AcceptedIsWritten(parseFloat: string -> Option<real>, expr: string, c: Comparison)
    requires ParseCondition(parseFloat, expr) == Ok(c)
    ensures Denotes(parseFloat, expr, c)
  {
    var s, op := Trim(expr), OpText(c.op);
    var i := AcceptedSplit(parseFloat, SEARCH_ORDER, s, c);
    var right := s[i + |op|..];
    SplitConcat(s, op, i);
    var w0, w1, w2, w3 := PartsWritten(expr, s[..i], op, right);
    var _, _ := TrimParts(right);
    assert Written(parseFloat, expr, c, w0, w1, w2, Trim(right), w3);
  }

  // ----- every written comparison is accepted -----

  lemma OpCharPosition(pre: string, o: string, tail: string, i: nat)
    requires NoOpChars(pre) && NoOpChars(tail)
    requires i < |pre + o + tail| && OpChar((pre + o + tail)[i])
    ensures |pre| <= i < |pre| + |o|
  {
    var s := pre + o + tail;
    forall k | 0 <= k < |pre| ensures !OpChar(s[k]) { assert s[k] == pre[k]; }
    forall k | |pre| + |o| <= k < |s| ensures !OpChar(s[k]) { assert s[k] == tail[k - |pre| - |o|]; }
  }

  /** An operator occurs only where the comparison's own operator stands. */
  lemma OccursInside(pre: string, op: Op, tail: string, other: Op, i: nat)
    requires NoOpChars(pre) && NoOpChars(tail)
    requires OccursAt(pre + OpText(op) + tail, OpText(other), i)
    ensures |pre| <= i && i + |OpText(other)| <= |pre| + |OpText(op)|
    ensures OpText(op)[i - |pre|..i - |pre| + |OpText(other)|] == OpText(other)
  {
    var s, o, t := pre + OpText(op) + tail, OpText(op), OpText(other);
    assert OpChar(t[0]) && OpChar(t[|t|-1]);
    assert s[i] == s[i..i + |t|][0] == t[0];
    assert s[i + |t| - 1] == s[i..i + |t|][|t|-1] == t[|t|-1];
    OpCharPosition(pre, o, tail, i);
    OpCharPosition(pre, o, tail, i + |t| - 1);
    assert s[i..i + |t|] == o[i - |pre|..i - |pre| + |t|];
  }

  function Rank(op: Op): nat {
    match op
    case Ge => 0
    case Le => 1
    case Ne => 2
    case Eq => 3
    case Gt => 4
    case Lt => 5
  }

  /** No operator searched before op is part of it. */
  lemma EarlierNotInside(op: Op, other: Op, i: nat)
    requires Rank(other) < Rank(op)
    ensures !(i + |OpText(other)| <= |OpText(op)| && OpText(op)[i..i + |OpText(other)|] == OpText(other))
  {
    if i + |OpText(other)| <= |OpText(op)| {
      assert i == 0 && |OpText(other)| == |OpText(op)|;
      assert OpText(op)[0..|OpText(op)|] == OpText(op);
    }
  }

  lemma EarlierNotFound(pre: string, op: Op, tail: string, other: Op)
    requires NoOpChars(pre) && NoOpChars(tail) && Rank(other) < Rank(op)
    ensures Index(pre + OpText(op) + tail, OpText(other)) == None
  {
    var found := Index(pre + OpText(op) + tail, OpText(other));
    if found.Some? {
      OccursInside(pre, op, tail, other, found.value);
      EarlierNotInside(op, other, found.value - |pre|);
    }
  }

  lemma OwnFound(pre: string, op: Op, tail: string)
    requires NoOpChars(pre) && NoOpChars(tail)
    ensures Index(pre + OpText(op) + tail, OpText(op)) == Some(|pre|)
  {
    var s := pre + OpText(op) + tail;
    assert OccursAt(s, OpText(op), |pre|);
    IndexIsLeftmost(s, OpText(op), |pre|);
    OccursInside(pre, op, tail, op, Index(s, OpText(op)).value);
  }

  lemma {:induction false} SearchFinds(parseFloat: string -> Option<real>, ops: seq<Op>, k: nat,
                                       pre: string, op: Op, tail: string, t: real)
    requires k <= Rank(op) && ops == SEARCH_ORDER[k..]
    requires NoOpChars(pre) && NoOpChars(tail)
    requires Trim(pre) == "value" && parseFloat(Trim(tail)) == Some(t)
    ensures ParseWith(parseFloat, ops, pre + OpText(op) + tail) == Ok(Comparison(op, t))
    decreases Rank(op) - k
  {
    var s := pre + OpText(op) + tail;
    assert Rank(ops[0]) == k;
    if k < Rank(op) {
      EarlierNotFound(pre, op, tail, ops[0]);
      SearchFinds(parseFloat, ops[1..], k + 1, pre, op, tail, t);
    } else {
      assert ops[0] == op;
      OwnFound(pre, op, tail);
      assert s[..|pre|] == pre && s[|pre| + |OpText(op)|..] == tail;
    }
  }

  lemma BlankNoOpChars(s: string)
    requires Blank(s)
    ensures NoOpChars(s)
  {
    forall i | 0 <= i < |s| ensures !OpChar(s[i]) {
      assert IsSpace(s[i]);
    }
  }

  lemma RegroupCut(w0: string, v: string, w1: string, op: string, w2: string, n: string, w3: string, tail: string, cut: string)
    requires w2 + n == tail + cut
    ensures w0 + v + w1 + op + w2 + n + w3 == w0 + ((v + w1) + op + tail) + (cut + w3)
  {
    assert w0 + v + w1 + op + w2 + n + w3 == w0 + v + w1 + op + (w2 + n) + w3;
  }

  lemma NoOpCharsPrefix(w: string, n: string, tail: string)
    requires NoOpChars(w) && NoOpChars(n) && tail <= w + n
    ensures NoOpChars(tail)
  {
    forall i | 0 <= i < |tail| ensures !OpChar(tail[i]) { assert tail[i] == (w + n)[i]; }
  }

  lemma TrimmedConcat(pre: string, op: string, tail: string)
    requires pre != [] && op != [] && !IsSpace(pre[0]) && !IsSpace(op[|op|-1])
    requires tail == [] || !IsSpace(tail[|tail|-1])
    ensures Trimmed(pre + op + tail)
  {}

  lemma WrittenTrims(expr: string, w0: string, w1: string, op: string, w2: string, literal: string, w3: string)
    returns (tail: string)
    requires Blank(w0) && Blank(w1) && Blank(w2) && Blank(w3) && Trimmed(literal)
    requires op != [] && !IsSpace(op[|op|-1])
    requires expr == w0 + "value" + w1 + op + w2 + literal + w3
    ensures Trim(expr) == ("value" + w1) + op + tail
    ensures Trim(tail) == literal && tail <= w2 + literal
  {
    tail := TrimRight(w2 + literal);
    var cut := TrimRightParts(w2 + literal);
    RegroupCut(w0, "value", w1, op, w2, literal, w3, tail, cut);
    TrimmedConcat("value" + w1, op, tail);
    TrimPadded(w0, ("value" + w1) + op + tail, cut + w3);
    TailTrim(w2, literal);
  }

  lemma WrittenIsAccepted(parseFloat: string -> Option<real>, expr: string, c: Comparison)
    requires NumberSyntax(parseFloat) && Denotes(parseFloat, expr, c)
    ensures ParseCondition(parseFloat, expr) == Ok(c)
  {
    var w0, w1, w2, literal, w3 :| Written(parseFloat, expr, c, w0, w1, w2, literal, w3);
    var tail := WrittenTrims(expr, w0, w1, OpText(c.op), w2, literal, w3);
    assert Trim("value" + w1) == "value" by {
      assert "value" + w1 == [] + "value" + w1;
      TrimPadded([], "value", w1);
    }
    BlankNoOpChars(w1);
    BlankNoOpChars(w2);
    NoOpCharsPrefix(w2, literal, tail);
    assert SEARCH_ORDER[0..] == SEARCH_ORDER;
    SearchFinds(parseFloat, SEARCH_ORDER, 0, "value" + w1, c.op, tail, c.threshold);
  }

  /** Cutting blanks off the right first does not change what trimming leaves. */
  lemma TailTrim(w: string, t: string)
    requires Blank(w) && Trimmed(t)
    ensures Trim(TrimRight(w + t)) == t
  {
    if t == [] {
      assert w + t == [] + w;
      TrimRightBlank([], w);
    } else {
      assert (w + t)[|w + t| - 1] == t[|t|-1];
      assert w + t == w + t + [];
      TrimPadded(w, t, []);
    }
  }

  /** The parser accepts exactly the written comparisons, with exactly their meaning. */
  lemma ParseConditionExact(parseFloat: string -> Option<real>, expr: string, c: Comparison)
    requires NumberSyntax(parseFloat)
    ensures ParseCondition(parseFloat, expr) == Ok(c) <==> Denotes(parseFloat, expr, c)
  {
    if ParseCondition(parseFloat, expr) == Ok(c) {
      AcceptedIsWritten(parseFloat, expr, c);
    }
    if Denotes(parseFloat, expr, c) {
      WrittenIsAccepted(parseFloat, expr, c);
    }
  }

  // ----- from the text to the comparison of numbers -----

  ghost predicate Parts(condition: string, sign: string, w0: string, w1: string, w2: string, literal: string, w3: string) {
    && Blank(w0) && Blank(w1) && Blank(w2) && Blank(w3) && Trimmed(literal)
    && condition == w0 + "value" + w1 + sign + w2 + literal + w3
  }

  /** The condition compares the value by the sign with a literal that reads as t. */
  ghost predicate Spelled(parseFloat: string -> Option<real>, condition: string, sign: string, t: real) {
    exists w0, w1, w2, literal, w3 :: Parts(condition, sign, w0, w1, w2, literal, w3) && parseFloat(literal) == Some(t)
  }

  /** What the text of a condition says of a value, sign by sign. */
  ghost predicate Says(parseFloat: string -> Option<real>, condition: string, v: real) {
    || (exists t :: Spelled(parseFloat, condition, ">", t) && v > t)
    || (exists t :: Spelled(parseFloat, condition, "<", t) && v < t)
    || (exists t :: Spelled(parseFloat, condition, ">=", t) && v >= t)
    || (exists t :: Spelled(parseFloat, condition, "<=", t) && v <= t)
    || (exists t :: Spelled(parseFloat, condition, "==", t) && v == t)
    || (exists t :: Spelled(parseFloat, condition, "!=", t) && v != t)
  }

  lemma SpelledIsParsed(parseFloat: string -> Option<real>, condition: string, op: Op, t: real)
    requires NumberSyntax(parseFloat)
    ensures Spelled(parseFloat, condition, OpText(op), t) <==> ParseCondition(parseFloat, condition) == Ok(Comparison(op, t))
  {
    hide ParseCondition, NumberSyntax;
    var c := Comparison(op, t);
    ParseConditionExact(parseFloat, condition, c);
    if Spelled(parseFloat, condition, OpText(op), t) {
      var w0, w1, w2, literal, w3 :| Parts(condition, OpText(op), w0, w1, w2, literal, w3) && parseFloat(literal) == Some(t);
      assert Written(parseFloat, condition, c, w0, w1, w2, literal, w3);
    }
    if Denotes(parseFloat, condition, c) {
      var w0, w1, w2, literal, w3 :| Written(parseFloat, condition, c, w0, w1, w2, literal, w3);
      assert Parts(condition, OpText(op), w0, w1, w2, literal, w3);
    }
  }

  lemma SignOf(parseFloat: string -> Option<real>, condition: string, c: Comparison, op: Op)
    requires NumberSyntax(parseFloat) && ParseCondition(parseFloat, condition) == Ok(c)
    ensures forall t :: Spelled(parseFloat, condition, OpText(op), t) <==> Comparison(op, t) == c
  {
    hide ParseCondition, NumberSyntax, Spelled;
    forall t ensures Spelled(parseFloat, condition, OpText(op), t) <==> Comparison(op, t) == c {
      SpelledIsParsed(parseFloat, condition, op, t);
    }
  }

  /** A parsed condition holds of exactly the values its text speaks of. */
  lemma ParsedSays(parseFloat: string -> Option<real>, condition: string, c: Comparison, v: real)
    requires NumberSyntax(parseFloat) && ParseCondition(parseFloat, condition) == Ok(c)
    ensures c.Holds(v) <==> Says(parseFloat, condition, v)
  {
    hide ParseCondition, NumberSyntax, Spelled;
    assert forall t :: Spelled(parseFloat, condition, ">", t) <==> Comparison(Gt, t) == c by { SignOf(parseFloat, condition, c, Gt); }
    assert forall t :: Spelled(parseFloat, condition, "<", t) <==> Comparison(Lt, t) == c by { SignOf(parseFloat, condition, c, Lt); }
    assert forall t :: Spelled(parseFloat, condition, ">=", t) <==> Comparison(Ge, t) == c by { SignOf(parseFloat, condition, c, Ge); }
    assert forall t :: Spelled(parseFloat, condition, "<=", t) <==> Comparison(Le, t) == c by { SignOf(parseFloat, condition, c, Le); }
    assert forall t :: Spelled(parseFloat, condition, "==", t) <==> Comparison(Eq, t) == c by { SignOf(parseFloat, condition, c, Eq); }
    assert forall t :: Spelled(parseFloat, condition, "!=", t) <==> Comparison(Ne, t) == c by { SignOf(parseFloat, condition, c, Ne); }
  }
}
