/**
 * The math game's questions: an operator applied to two operands, Go's `int` arithmetic
 * (`/` truncating toward zero), and the text a question is shown as.
 */
module Questions {
  import opened Wrappers
  import GoInt
  import Arith

  /** An operator is its symbol; only the four of Operators are known. */
  type Operator = string

  const Operators: seq<Operator> := ["+", "-", "*", "/"]

  datatype ApplyError = DivideByZero | UnknownOperator(op: Operator)

  /** The text of the error, as Go formats it. */
  function Message(e: ApplyError): string
  {
    match e
    case DivideByZero => "divide by zero"
    case UnknownOperator(op) => "unknown operator: " + op
  }

  /** Operator.Apply(a, b). */
  function Apply(o: Operator, a: int, b: int): (r: Result<int, ApplyError>)
    ensures r.Ok? <==> o in Operators && !(o == "/" && b == 0)
    ensures r.Err? ==> r.error == (if o in Operators then DivideByZero else UnknownOperator(o))
  {
    if o == "+" then Ok(a + b)
    else if o == "-" then Ok(a - b)
    else if o == "*" then Ok(a * b)
    else if o == "/" then (if b == 0 then Err(DivideByZero) else Ok(GoInt.Quo(a, b)))
    else Err(UnknownOperator(o))
  }

  /** Apply succeeds exactly for the four known operators, except division by zero. */
  lemma ApplyOk(o: Operator, a: int, b: int)
    ensures Apply(o, a, b).Ok? <==> o in Operators && !(o == "/" && b == 0)
    ensures o !in Operators ==> Apply(o, a, b) == Err(UnknownOperator(o))
    ensures o == "/" && b == 0 ==> Apply(o, a, b) == Err(DivideByZero)
  {
  }

  /** What the sum, difference and product operators compute. */
  lemma ApplyArithmetic(a: int, b: int)
    ensures Apply("+", a, b) == Ok(a + b) && Apply("-", a, b) == Ok(a - b) && Apply("*", a, b) == Ok(a * b)
  {
  }

  /** A nonzero multiple of b is at least as large as b. */
  lemma MulAtLeast(x: int, b: int)
    requires x != 0 && b != 0
    ensures GoInt.Abs(x * b) >= GoInt.Abs(b)
  {
    var ax: int, ab: int := GoInt.Abs(x), GoInt.Abs(b);
    Arith.MulMono(0, ax, ab);
    assert GoInt.Abs(x * b) == ax * ab by {
      if x < 0 && b < 0 {
        assert x * b == ax * ab;
      } else if x < 0 {
        assert x * b == -(ax * ab);
      } else if b < 0 {
        assert x * b == -(ax * ab);
      }
    }
    Arith.MulMono(1, ax, ab);
  }

  /**
   * Division truncates toward zero: "/" gives q exactly when a - q*b is smaller than b in
   * magnitude and is zero or has the sign of a.
   */
  lemma ApplyDivides(a: int, b: int, q: int)
    requires b != 0
    ensures Apply("/", a, b) == Ok(q) <==>
      GoInt.Abs(a - q * b) < GoInt.Abs(b) && (a - q * b == 0 || (a - q * b > 0) == (a > 0))
  {
    var q', r' := GoInt.Quo(a, b), GoInt.Rem(a, b);
    var r := a - q * b;
    if GoInt.Abs(r) < GoInt.Abs(b) && (r == 0 || (r > 0) == (a > 0)) && q != q' {
      assert (q' - q) * b == r - r';
      MulAtLeast(q' - q, b);
      assert false;
    }
  }

  /** The examples of the tests: 5+3, 9-4, 7*6 and 20/5, then the two errors. */
  lemma ApplyExamples()
    ensures Apply("+", 5, 3) == Ok(8) && Apply("-", 9, 4) == Ok(5) && Apply("*", 7, 6) == Ok(42)
    ensures Apply("/", 20, 5) == Ok(4)
    ensures Apply("/", 10, 0).Err? && Apply("%", 10, 2).Err?
  {
    assert GoInt.Quo(20, 5) == 4;
  }

  /** A question without its creation time. */
  datatype Question = Question(id: int, argumentA: int, argumentB: int, op: Operator, answer: int)

  /** Question.String, fmt.Sprintf("Q%d: %d %s %d = ?", ...): its six words joined by spaces. */
  function Render(q: Question): (s: string)
    ensures s == "Q" + GoInt.Format(q.id) + ": " + GoInt.Format(q.argumentA) + " " + q.op + " "
                 + GoInt.Format(q.argumentB) + " = ?"
  {
    var w := Words(q);
    JoinSix(w);
    assert w[0] + " " == "Q" + GoInt.Format(q.id) + ": ";
    Join(w)
  }

  /** The words of a question's text: "Q<id>:", a, the operator, b, "=" and "?". */
  function Words(q: Question): (w: seq<string>)
    ensures |w| == 6
  {
    ["Q" + GoInt.Format(q.id) + ":", GoInt.Format(q.argumentA), q.op, GoInt.Format(q.argumentB), "=", "?"]
  }

  /** Words separated by single spaces. */
  function Join(words: seq<string>): string
    requires |words| > 0
  {
    if |words| == 1 then words[0] else words[0] + " " + Join(words[1..])
  }

  /** Joining one more word appends a space and that word. */
  lemma {:induction false} JoinAppend(words: seq<string>, last: string)
    requires |words| > 0
    ensures Join(words + [last]) == Join(words) + " " + last
    decreases |words|
  {
    var all := words + [last];
    if |words| == 1 {
      assert all[1..] == [last];
    } else {
      assert all[1..] == words[1..] + [last];
      JoinAppend(words[1..], last);
      var a, b := words[0] + " ", Join(words[1..]) + " ";
      assert a + (b + last) == (a + b) + last;
    }
  }

  /** Six words joined: the words with a space between each two. */
  lemma JoinSix(w: seq<string>)
    requires |w| == 6
    ensures Join(w) == w[0] + " " + w[1] + " " + w[2] + " " + w[3] + " " + w[4] + " " + w[5]
  {
    assert w[..1] == [w[0]];
    assert w[..2] == w[..1] + [w[1]];
    JoinAppend(w[..1], w[1]);
    assert w[..3] == w[..2] + [w[2]];
    JoinAppend(w[..2], w[2]);
    assert w[..4] == w[..3] + [w[3]];
    JoinAppend(w[..3], w[3]);
    assert w[..5] == w[..4] + [w[4]];
    JoinAppend(w[..4], w[4]);
    assert w == w[..5] + [w[5]];
    JoinAppend(w[..5], w[5]);
  }

  /** The text of question 1, 5 + 3. */
  lemma RenderExample()
    ensures Render(Question(1, 5, 3, "+", 8)) == "Q1: 5 + 3 = ?"
  {
    assert GoInt.Format(1) == "1" && GoInt.Format(5) == "5" && GoInt.Format(3) == "3";
  }

  /**
   * NewQuestion(id) with the random draws as inputs: a and b in 0 .. 100 and the operator
   * Operators[pick]. It fails exactly when Apply fails, and then has no question.
   */
  function NewQuestion(id: int, a: int, b: int, pick: int): (r: Result<Question, ApplyError>)
    requires 0 <= a <= 100 && 0 <= b <= 100 && 0 <= pick < |Operators|
    ensures r.Ok? <==> Apply(Operators[pick], a, b).Ok?
    ensures r.Err? ==> r.error == Apply(Operators[pick], a, b).error
    ensures r.Ok? ==> && r.value.id == id && r.value.op == Operators[pick]
                      && r.value.argumentA == a && r.value.argumentB == b
                      && Apply(r.value.op, r.value.argumentA, r.value.argumentB) == Ok(r.value.answer)
  {
    var op := Operators[pick];
    match Apply(op, a, b)
    case Err(e) => Err(e)
    case Ok(ans) => Ok(Question(id, a, b, op, ans))
  }

  /**
   * The only failing draw is "/" with b == 0, and every answer lies in -100 .. 10000, far
   * inside Go's 64-bit int.
   */
  lemma NewQuestionOutcome(id: int, a: int, b: int, pick: int)
    requires 0 <= a <= 100 && 0 <= b <= 100 && 0 <= pick < |Operators|
    ensures NewQuestion(id, a, b, pick).Err? <==> pick == 3 && b == 0
    ensures NewQuestion(id, a, b, pick).Ok? ==> -100 <= NewQuestion(id, a, b, pick).value.answer <= 10000
  {
    if pick == 2 {
      ProductBounded(a, b);
    } else if pick == 3 && b != 0 {
      QuotientBounded(a, b);
    }
  }

  lemma ProductBounded(a: int, b: int)
    requires 0 <= a <= 100 && 0 <= b <= 100
    ensures 0 <= a * b <= 10000
  {
    Arith.MulMono(a, 100, b);
    Arith.MulMono(b, 100, 100);
  }

  /** Go's quotient of two non-negative numbers lies between zero and the dividend. */
  lemma QuotientBounded(a: int, b: int)
    requires 0 <= a && 0 < b
    ensures 0 <= GoInt.Quo(a, b) <= a
  {
    GoInt.QuoRemNonNegative(a, b);
    Arith.Euclid(a, b);
    Arith.MulMono(1, b, a / b);
  }

  // -------------------------------------------------------------- reading a question back

  /** s split at every space. */
  function Split(s: string): (parts: seq<string>)
    ensures |parts| > 0
  {
    if s == [] then [""]
    else if s[0] == ' ' then [""] + Split(s[1..])
    else
      var rest := Split(s[1..]);
      [[s[0]] + rest[0]] + rest[1..]
  }

  /** Splitting a text that starts with a word and a space gives that word first. */
  lemma {:induction false} SplitWord(w: string, rest: string)
    requires ' ' !in w
    ensures Split(w + " " + rest) == [w] + Split(rest)
    decreases |w|
  {
    if w == [] {
      assert w + " " + rest == [' '] + rest;
      assert (w + " " + rest)[1..] == rest;
    } else {
      SplitWord(w[1..], rest);
      assert (w + " " + rest)[1..] == w[1..] + " " + rest;
      assert [w[0]] + w[1..] == w;
    }
  }

  /** A text without spaces splits into itself. */
  lemma {:induction false} SplitNone(w: string)
    requires ' ' !in w
    ensures Split(w) == [w]
    decreases |w|
  {
    if w != [] {
      SplitNone(w[1..]);
      assert [w[0]] + w[1..] == w;
    }
  }

  /** What Format prints for a number that Go writes with `%d`. */
  predicate Numeral(s: string)
  {
    && |s| > 0
    && (s[0] == '-' ==> forall i :: 1 <= i < |s| ==> '0' <= s[i] <= '9')
    && (s[0] != '-' ==> forall i :: 0 <= i < |s| ==> '0' <= s[i] <= '9')
  }

  lemma FormatNumeral(i: int)
    ensures Numeral(GoInt.Format(i)) && ' ' !in GoInt.Format(i)
  {
  }

  /** The id, operands and operator a question's text shows, if it has the shape Render gives. */
  function ParseRendered(s: string): (r: Option<(int, int, Operator, int)>)
  {
    var t := Split(s);
    if |t| == 6 && |t[0]| >= 3 && t[0][0] == 'Q' && t[0][|t[0]| - 1] == ':'
       && Numeral(t[0][1..|t[0]| - 1]) && Numeral(t[1]) && Numeral(t[3]) && t[4] == "=" && t[5] == "?"
    then Some((GoInt.ParseFormatted(t[0][1..|t[0]| - 1]), GoInt.ParseFormatted(t[1]), t[2], GoInt.ParseFormatted(t[3])))
    else None
  }

  /** Joining words that hold no space and splitting at spaces gives back the words. */
  lemma {:induction false} SplitJoin(words: seq<string>)
    requires |words| > 0 && forall i :: 0 <= i < |words| ==> ' ' !in words[i]
    ensures Split(Join(words)) == words
    decreases |words|
  {
    if |words| == 1 {
      SplitNone(words[0]);
    } else {
      SplitJoin(words[1..]);
      SplitWord(words[0], Join(words[1..]));
    }
  }

  /** A question's text gives back its id, operands and operator (none of the operators holds a space). */
  lemma RenderRoundTrip(q: Question)
    requires ' ' !in q.op
    ensures ParseRendered(Render(q)) == Some((q.id, q.argumentA, q.op, q.argumentB))
  {
    var w := Words(q);
    FormatNumeral(q.id);
    FormatNumeral(q.argumentA);
    FormatNumeral(q.argumentB);
    assert ' ' !in w[0];
    SplitJoin(w);
    assert w[0][1..|w[0]| - 1] == GoInt.Format(q.id);
    GoInt.FormatRoundTrip(q.id);
    GoInt.FormatRoundTrip(q.argumentA);
    GoInt.FormatRoundTrip(q.argumentB);
  }

  /** The four operators hold no space, so every question NewQuestion makes reads back. */
  lemma NewQuestionRenders(id: int, a: int, b: int, pick: int)
    requires 0 <= a <= 100 && 0 <= b <= 100 && 0 <= pick < |Operators|
    requires NewQuestion(id, a, b, pick).Ok?
    ensures ParseRendered(Render(NewQuestion(id, a, b, pick).value)) == Some((id, a, Operators[pick], b))
  {
    RenderRoundTrip(NewQuestion(id, a, b, pick).value);
  }
}
