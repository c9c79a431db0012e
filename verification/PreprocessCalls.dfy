/** What calls of user-defined functions give: arguments by number, and nothing lost in between. */
module PreprocessCalls {
  import opened Options
  import opened Preprocess

  /** No character with a meaning in references. */
  ghost predicate PlainText(s: string) { forall c <- s :: c !in {'$', ',', '(', ')'} }

  ghost predicate PlainTexts(ts: seq<string>) { forall t <- ts :: PlainText(t) }

  /** Text without a dollar sign stands for itself. */
  lemma {:induction false} TextExpands(w: World, g: Guard, s: string, args: seq<string>)
    requires Bounded(w, g) && '$' !in s
    ensures Expand(w, g, s, args) == Ok(s)
    decreases |s|
  {
    if s != "" {
      TextExpands(w, g, s[1..], args);
      assert s[..1] + s[1..] == s;
    }
  }

  lemma {:induction false} TextsExpand(w: World, g: Guard, ts: seq<string>, args: seq<string>, limit: nat)
    requires Bounded(w, g) && PlainTexts(ts) && forall t <- ts :: |t| <= limit
    ensures ExpandAll(w, g, ts, args, limit) == Texts(ts)
    decreases |ts|
  {
    if ts != [] {
      assert ts[0] in ts && PlainText(ts[0]);
      TextExpands(w, g, ts[0], args);
      TextsExpand(w, g, ts[1..], args, limit);
    }
  }

  // ---- cutting undoes joining

  /** Up to the next comma the cut goes on. */
  lemma {:induction false} SplitPlain(s: string, from: nat, p: nat, q: nat)
    requires from <= p <= q <= |s| && forall i :: p <= i < q ==> s[i] !in {',', '(', ')'}
    ensures Split(s, from, p, 0) == Split(s, from, q, 0)
    decreases q - p
  {
    if p < q { SplitPlain(s, from, p + 1, q); }
  }

  /** The first token, and the comma and the others behind it. */
  lemma StartsWith(s: string, from: nat, t: string, tokens: seq<string>)
    requires tokens != [] && t == tokens[0] && PlainText(t) && from <= |s| && s[from..] == Join(tokens)
    ensures from + |t| <= |s| && s[from..from + |t|] == t
    ensures forall i :: from <= i < from + |t| ==> s[i] !in {',', '(', ')'}
    ensures if |tokens| == 1 then from + |t| == |s| else
      from + |t| < |s| && s[from + |t|] == ',' && s[from + |t| + 1..] == Join(tokens[1..])
  {
    var rest := s[from..];
    assert forall i :: 0 <= i < |t| ==> rest[i] == t[i] && t[i] in t;
    if |tokens| > 1 { assert rest == t + "," + Join(tokens[1..]) && rest[|t|] == ','; }
  }

  lemma {:induction false} SplitJoined(s: string, tokens: seq<string>, from: nat)
    requires tokens != [] && PlainTexts(tokens) && from <= |s| && s[from..] == Join(tokens)
    ensures Split(s, from, from, 0) == tokens
    decreases |tokens|
  {
    var t := tokens[0];
    assert t in tokens && PlainText(t);
    StartsWith(s, from, t, tokens);
    SplitPlain(s, from, from, from + |t|);
    if |tokens| == 1 {
      assert tokens == [t];
    } else {
      SplitJoined(s, tokens[1..], from + |t| + 1);
      assert [t] + tokens[1..] == tokens;
    }
  }

  /** Cutting a clause gives back the name and arguments it was joined from. */
  lemma SplitJoin(tokens: seq<string>)
    requires tokens != [] && PlainTexts(tokens)
    ensures Split(Join(tokens), 0, 0, 0) == tokens
  {
    SplitJoined(Join(tokens), tokens, 0);
  }

  lemma {:induction false} ClosesAt(s: string, q: nat, end: nat)
    requires q <= end < |s| && s[end] == ')' && forall i :: q <= i < end ==> s[i] !in {'(', ')'}
    ensures Closing(s, q, 0) == Some(end)
    decreases end - q
  {
    if q < end { ClosesAt(s, q + 1, end); }
  }

  lemma {:induction false} JoinWithout(tokens: seq<string>)
    requires tokens != [] && PlainTexts(tokens)
    ensures '(' !in Join(tokens) && ')' !in Join(tokens)
  {
    assert tokens[0] in tokens && PlainText(tokens[0]);
    assert '(' !in tokens[0] && ')' !in tokens[0];
    if |tokens| > 1 { JoinWithout(tokens[1..]); }
  }

  // ---- references

  function Reference(clause: string): string { "$(" + clause + ")" }

  /** A reference alone has the value of its clause. */
  lemma ReferenceAlone(w: World, g: Guard, clause: string, args: seq<string>)
    requires Bounded(w, g) && '(' !in clause && ')' !in clause
    ensures Expand(w, g, Reference(clause), args) == Clause(w, g, clause, args)
  {
    var s, q := Reference(clause), 2 + |clause|;
    forall i | 2 <= i < q ensures s[i] !in {'(', ')'} {
      assert s[i] == clause[i - 2] && clause[i - 2] in clause;
    }
    ClosesAt(s, 2, q);
    assert s[2..q] == clause && s[q + 1..] == "";
    var r := Clause(w, g, clause, args);
    if r.Ok? { assert r.text + "" == r.text; }
  }

  /** $(1), $(2) and so on are the arguments of the call, in their order. */
  lemma ArgumentByNumber(w: World, g: Guard, clause: string, args: seq<string>)
    requires Bounded(w, g) && '(' !in clause && ')' !in clause && 0 < w.number(clause) <= |args|
    ensures Expand(w, g, Reference(clause), args) == Ok(args[w.number(clause) - 1])
  {
    ReferenceAlone(w, g, clause, args);
  }

  /** A clause with plain name and arguments applies the name to the arguments. */
  lemma CallApplies(w: World, g: Guard, name: string, actual: seq<string>, args: seq<string>)
    requires Bounded(w, g) && PlainTexts([name] + actual) && |actual| < MAX_ARGS
    requires var n := w.number(Join([name] + actual)); n == 0 || n > |args|
    ensures Expand(w, g, Reference(Join([name] + actual)), args) == Apply(w, g, name, actual)
  {
    var tokens := [name] + actual;
    var clause := Join(tokens);
    JoinWithout(tokens);
    ReferenceAlone(w, g, clause, args);
    SplitJoin(tokens);
    TextsExpand(w, g, tokens, args, |clause|);
    assert tokens[0] == name && tokens[1..] == actual;
  }

  /** A call with plain name and arguments, of at most fifteen, is the expansion of the function's text
      with these arguments. */
  lemma CallExpands(w: World, g: Guard, v: nat, actual: seq<string>, args: seq<string>)
    requires Bounded(w, g) && v < |w.vars| && w.vars[v].flavor == Recursive && PlainTexts([w.vars[v].name] + actual)
    requires Lookup(w.vars, w.vars[v].name, 0) == Some(v) && |actual| < MAX_ARGS
    requires Refusal(g, v, w.vars[v].name, |actual|).None?
    requires var n := w.number(Join([w.vars[v].name] + actual)); n == 0 || n > |args|
    ensures Bounded(w, Enter(g, v))
    ensures Expand(w, g, Reference(Join([w.vars[v].name] + actual)), args)
         == Expand(w, Enter(g, v), w.vars[v].value, actual)
  {
    EnterBounded(w, g, v, w.vars[v].name, |actual|);
    CallApplies(w, g, w.vars[v].name, actual, args);
  }

  /** So a function whose text is a number gives that argument, whatever the others are. */
  lemma CallGivesArgument(w: World, g: Guard, v: nat, actual: seq<string>, args: seq<string>, k: string)
    requires Bounded(w, g) && v < |w.vars| && w.vars[v].flavor == Recursive && PlainTexts([w.vars[v].name] + actual)
    requires Lookup(w.vars, w.vars[v].name, 0) == Some(v) && |actual| < MAX_ARGS
    requires Refusal(g, v, w.vars[v].name, |actual|).None?
    requires var n := w.number(Join([w.vars[v].name] + actual)); n == 0 || n > |args|
    requires w.vars[v].value == Reference(k) && '(' !in k && ')' !in k && 0 < w.number(k) <= |actual|
    ensures Expand(w, g, Reference(Join([w.vars[v].name] + actual)), args) == Ok(actual[w.number(k) - 1])
  {
    CallExpands(w, g, v, actual, args);
    ArgumentByNumber(w, Enter(g, v), k, actual);
  }

  /** What is neither a variable nor a built-in function is looked up in the environment, if it is called
      without arguments, and is empty otherwise. */
  lemma UnknownNames(w: World, g: Guard, name: string, actual: seq<string>, args: seq<string>)
    requires Bounded(w, g) && PlainTexts([name] + actual) && name != "" && |actual| < MAX_ARGS
    requires Lookup(w.vars, name, 0).None? && w.builtin(name, actual).NoSuchFunction?
    requires var n := w.number(Join([name] + actual)); n == 0 || n > |args|
    ensures Expand(w, g, Reference(Join([name] + actual)), args) ==
      Ok(if actual == [] && w.environment(name).Some? then w.environment(name).value else "")
  {
    CallApplies(w, g, name, actual, args);
  }
}
