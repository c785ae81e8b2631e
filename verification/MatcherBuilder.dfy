/** The client-class matcher builder: a two-stack machine that turns parse
    events into a predicate on packets (slave/server/client_class_matcher.cpp).
    Packets are an arbitrary type; a leaf is any predicate on them. */
module MatcherBuilder {
  import opened Wrappers

  type Matcher<!P> = P -> bool

  function AndMatcher<P>(f: Matcher<P>, g: Matcher<P>): (m: Matcher<P>) {
    (p: P) => f(p) && g(p)
  }

  function OrMatcher<P>(f: Matcher<P>, g: Matcher<P>): (m: Matcher<P>) {
    (p: P) => f(p) || g(p)
  }

  datatype Operator = And | Or | LeftBracket | RightBracket

  // ---------------------------------------------------------------- the machine

  datatype Stacks<!P> = Stacks(matchers: seq<Matcher<P>>, operators: seq<Operator>)

  datatype Event<!P> = OnLeaf(m: Matcher<P>) | OnLeftBracket | OnRightBracket | OnAnd | OnOr

  /** None where the C++ code asserts or takes the top of an empty stack. */
  function AddMatcher<P>(s: Stacks<P>, m: Matcher<P>): (r: Option<Stacks<P>>) {
    if s.matchers == [] then Some(s.(matchers := [m]))
    else if s.operators == [] then None
    else
      var n, k := |s.matchers| - 1, |s.operators| - 1;
      match s.operators[k]
      case And => Some(Stacks(s.matchers[..n] + [AndMatcher(s.matchers[n], m)], s.operators[..k]))
      case Or => Some(Stacks(s.matchers[..n] + [OrMatcher(s.matchers[n], m)], s.operators[..k]))
      case LeftBracket => Some(s.(matchers := s.matchers + [m]))
      case RightBracket => None
  }

  function Handle<P>(s: Stacks<P>, e: Event<P>): (r: Option<Stacks<P>>) {
    match e
    case OnLeaf(m) => AddMatcher(s, m)
    case OnLeftBracket => Some(s.(operators := s.operators + [LeftBracket]))
    case OnAnd => Some(s.(operators := s.operators + [And]))
    case OnOr => Some(s.(operators := s.operators + [Or]))
    case OnRightBracket =>
      if s.operators == [] || s.operators[|s.operators| - 1] != LeftBracket || s.matchers == [] then None
      else
        var n, k := |s.matchers| - 1, |s.operators| - 1;
        AddMatcher(Stacks(s.matchers[..n], s.operators[..k]), s.matchers[n])
  }

  function Feed<P>(s: Stacks<P>, events: seq<Event<P>>): (r: Option<Stacks<P>>)
    decreases |events|
  {
    if events == [] then Some(s)
    else match Handle(s, events[0])
      case None => None
      case Some(t) => Feed(t, events[1..])
  }

  class ClientClassMatcherBuilder<P> {
    var matchers: seq<Matcher<P>>
    var operators: seq<Operator>

    function View(): (s: Stacks<P>)
      reads this
    {
      Stacks(matchers, operators)
    }

    constructor ()
      ensures View() == Stacks([], [])
    {
      matchers, operators := [], [];
    }

    method Add(m: Matcher<P>) returns (ok: bool)
      modifies this
      ensures ok <==> AddMatcher(old(View()), m).Some?
      ensures View() == if ok then AddMatcher(old(View()), m).value else old(View())
    {
      ok := true;
      if matchers == [] {
        matchers := [m];
      } else if operators == [] {
        ok := false;
      } else {
        var n, k := |matchers| - 1, |operators| - 1;
        match operators[k] {
          case And =>
            matchers := matchers[..n] + [AndMatcher(matchers[n], m)];
            operators := operators[..k];
          case Or =>
            matchers := matchers[..n] + [OrMatcher(matchers[n], m)];
            operators := operators[..k];
          case LeftBracket => matchers := matchers + [m];
          case RightBracket => ok := false;
        }
      }
    }

    /** One event; after a failed one the parse is abandoned. */
    method On(e: Event<P>) returns (ok: bool)
      modifies this
      ensures ok <==> Handle(old(View()), e).Some?
      ensures ok ==> View() == Handle(old(View()), e).value
    {
      match e {
        case OnLeaf(m) => ok := Add(m);
        case OnLeftBracket => operators, ok := operators + [LeftBracket], true;
        case OnAnd => operators, ok := operators + [And], true;
        case OnOr => operators, ok := operators + [Or], true;
        case OnRightBracket =>
          if operators == [] || operators[|operators| - 1] != LeftBracket || matchers == [] {
            return false;
          }
          operators := operators[..|operators| - 1];
          var component := matchers[|matchers| - 1];
          matchers := matchers[..|matchers| - 1];
          ok := Add(component);
      }
    }

    /** The matcher, where the C++ code asserts that one and no operator remain.
        Whatever expression's events were fed, there is one and it accepts exactly the
        packets on which the expression evaluates to true. */
    method GetMatcher() returns (m: Option<Matcher<P>>)
      ensures m == if |matchers| == 1 && operators == [] then Some(matchers[0]) else None
      ensures forall e: Expr<P> | Feed(Stacks([], []), ExprEvents(e)) == Some(View()) ::
                m.Some? && forall p: P :: m.value(p) == EvalExpr(e, p)
    {
      forall e: Expr<P> | Feed(Stacks([], []), ExprEvents(e)) == Some(View())
        ensures |matchers| == 1 && operators == [] && forall p: P :: matchers[0](p) == EvalExpr(e, p)
      {
        BuilderCompilesExpression(e);
      }
      m := if |matchers| == 1 && operators == [] then Some(matchers[0]) else None;
    }
  }

  // ---------------------------------------------------------------- expressions

  /** Operands joined by operators of equal rank, with brackets to any depth. */
  datatype Expr<!P> = Operand(t: Term<P>) | Chain(left: Expr<P>, conjunction: bool, right: Term<P>)

  datatype Term<!P> = Leaf(m: Matcher<P>) | Group(e: Expr<P>)

  function TermEvents<P>(t: Term<P>): (r: seq<Event<P>>) {
    match t
    case Leaf(m) => [OnLeaf(m)]
    case Group(e) => [OnLeftBracket] + ExprEvents(e) + [OnRightBracket]
  }

  /** The events the grammar's actions emit for an expression. */
  function ExprEvents<P>(e: Expr<P>): (r: seq<Event<P>>) {
    match e
    case Operand(t) => TermEvents(t)
    case Chain(l, conj, r) => ExprEvents(l) + [if conj then OnAnd else OnOr] + TermEvents(r)
  }

  /** Left to right, a bracketed group being one operand. */
  predicate EvalExpr<P>(e: Expr<P>, p: P) {
    match e
    case Operand(t) => EvalTerm(t, p)
    case Chain(l, conj, r) => if conj then EvalExpr(l, p) && EvalTerm(r, p) else EvalExpr(l, p) || EvalTerm(r, p)
  }

  predicate EvalTerm<P>(t: Term<P>, p: P) {
    match t
    case Leaf(m) => m(p)
    case Group(e) => EvalExpr(e, p)
  }

  /** The matcher each expression should become. */
  function ExprMatcher<P>(e: Expr<P>): (m: Matcher<P>) {
    match e
    case Operand(t) => TermMatcher(t)
    case Chain(l, conj, r) =>
      if conj then AndMatcher(ExprMatcher(l), TermMatcher(r)) else OrMatcher(ExprMatcher(l), TermMatcher(r))
  }

  function TermMatcher<P>(t: Term<P>): (m: Matcher<P>) {
    match t
    case Leaf(m) => m
    case Group(e) => ExprMatcher(e)
  }

  lemma {:induction false} MatcherEvaluates<P>(e: Expr<P>, p: P)
    ensures ExprMatcher(e)(p) == EvalExpr(e, p)
  {
    match e
    case Operand(t) => TermMatcherEvaluates(t, p);
    case Chain(l, conj, r) =>
      MatcherEvaluates(l, p);
      TermMatcherEvaluates(r, p);
  }

  lemma {:induction false} TermMatcherEvaluates<P>(t: Term<P>, p: P)
    ensures TermMatcher(t)(p) == EvalTerm(t, p)
  {
    match t
    case Leaf(_) =>
    case Group(e) => MatcherEvaluates(e, p);
  }

  // ---------------------------------------------------------------- the machine compiles expressions

  lemma {:induction false} FeedAppend<P>(s: Stacks<P>, a: seq<Event<P>>, b: seq<Event<P>>)
    ensures Feed(s, a + b) == match Feed(s, a) case None => None case Some(t) => Feed(t, b)
    decreases |a|
  {
    hide Handle;
    if a == [] {
      assert a + b == b;
    } else {
      assert (a + b)[1..] == a[1..] + b;
      if Handle(s, a[0]).Some? {
        FeedAppend(Handle(s, a[0]).value, a[1..], b);
      }
    }
  }

  lemma FeedOne<P>(s: Stacks<P>, e: Event<P>)
    ensures Feed(s, [e]) == Handle(s, e)
  {
    hide Handle;
    assert [e][1..] == [];
  }

  /** An operand can be taken: at the start, or after an operator or bracket. */
  ghost predicate Ready<P>(s: Stacks<P>) {
    s.matchers == [] || s.operators != []
  }

  /** The next operand starts a new group: at the start or after a bracket. */
  ghost predicate Fresh<P>(s: Stacks<P>) {
    s.matchers == [] || (s.operators != [] && s.operators[|s.operators| - 1] == LeftBracket)
  }

  lemma {:induction false} FeedTerm<P>(s: Stacks<P>, t: Term<P>)
    requires Ready(s)
    ensures Feed(s, TermEvents(t)) == AddMatcher(s, TermMatcher(t))
    decreases t
  {
    match t
    case Leaf(m) => FeedOne(s, OnLeaf(m));
    case Group(e) =>
      var bracketed := s.(operators := s.operators + [LeftBracket]);
      var inside := bracketed.(matchers := s.matchers + [ExprMatcher(e)]);
      FeedExpr(bracketed, e);
      FeedOne(s, OnLeftBracket);
      FeedOne(inside, OnRightBracket);
      FeedAppend(s, [OnLeftBracket], ExprEvents(e));
      FeedAppend(s, [OnLeftBracket] + ExprEvents(e), [OnRightBracket]);
      assert inside.matchers[..|s.matchers|] == s.matchers && inside.operators[..|s.operators|] == s.operators;
  }

  lemma {:induction false} FeedExpr<P>(s: Stacks<P>, e: Expr<P>)
    requires Fresh(s)
    ensures Feed(s, ExprEvents(e)) == Some(s.(matchers := s.matchers + [ExprMatcher(e)]))
    decreases e
  {
    match e
    case Operand(t) =>
      FeedTerm(s, t);
      assert s.matchers == [] ==> s.matchers + [TermMatcher(t)] == [TermMatcher(t)];
    case Chain(l, conj, r) =>
      var op := if conj then And else Or;
      var event := if conj then OnAnd else OnOr;
      var left := s.(matchers := s.matchers + [ExprMatcher(l)]);
      var open := left.(operators := s.operators + [op]);
      FeedExpr(s, l);
      FeedOne(left, event);
      FeedTerm(open, r);
      FeedAppend(s, ExprEvents(l), [event]);
      FeedAppend(s, ExprEvents(l) + [event], TermEvents(r));
      assert open.matchers[..|s.matchers|] == s.matchers && open.operators[..|s.operators|] == s.operators;
  }

  /** For every expression, feeding its events to a new builder fails no
      assertion and leaves one matcher and no operators; the matcher accepts
      exactly the packets on which left-to-right evaluation is true. */
  lemma BuilderCompilesExpression<P>(e: Expr<P>)
    ensures Feed(Stacks([], []), ExprEvents(e)) == Some(Stacks([ExprMatcher(e)], []))
    ensures forall p: P :: ExprMatcher(e)(p) == EvalExpr(e, p)
  {
    FeedExpr(Stacks([], []), e);
    assert [] + [ExprMatcher(e)] == [ExprMatcher(e)];
    forall p: P
      ensures ExprMatcher(e)(p) == EvalExpr(e, p)
    {
      MatcherEvaluates(e, p);
    }
  }
}
