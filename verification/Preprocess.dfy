/** preprocess.cpp: macro expansion, protected against endless recursion by counters only. */
module Preprocess {
  import opened Options

  datatype Flavor = Simple | Recursive

  datatype Variable = Variable(name: string, value: string, flavor: Flavor)

  datatype Error =
    | Unterminated(reference: string)
    | TooManyArguments
    | SelfReference(name: string)
    | TooDeep
    | Builtin(name: string)
    | OutOfFuel

  datatype Result = Ok(text: string) | Err(error: Error)

  datatype Results = Texts(texts: seq<string>) | Failed(error: Error)

  /** A built-in function gives a text or complains about its arguments. */
  datatype Called = NoSuchFunction | Returns(text: string) | Complains

  /** What expansion depends on: the variables, strtoul (0 unless the whole string is a number), the
      built-in functions and the environment. */
  datatype World = World(
    vars: seq<Variable>,
    number: string -> nat,
    builtin: (string, seq<string>) -> Called,
    environment: string -> Option<string>)

  const MAX_ARGS: nat := 16
  const MAX_DEPTH: nat := 1000

  // ---- syntax

  /** The position of the parenthesis that closes a reference, looking from q on. */
  function Closing(s: string, q: nat, nest: nat): (r: Option<nat>)
    requires q <= |s|
    ensures r.Some? ==> q <= r.value < |s| && s[r.value] == ')'
    decreases |s| - q
  {
    if q == |s| then None
    else if s[q] == '(' then Closing(s, q + 1, nest + 1)
    else if s[q] == ')' then if nest == 0 then Some(q) else Closing(s, q + 1, nest - 1)
    else Closing(s, q + 1, nest)
  }

  /** The nesting level behind one more character. */
  function Nested(c: char, nest: int): int {
    if c == '(' then nest + 1 else if c == ')' then nest - 1 else nest
  }

  /** A clause cut at the commas outside parentheses. */
  function Split(s: string, from: nat, p: nat, nest: int): (tokens: seq<string>)
    requires from <= p <= |s|
    ensures 1 <= |tokens| <= |s| - p + 1
    ensures forall t :: t in tokens ==> |t| <= |s|
    decreases |s| - p
  {
    if p == |s| then [s[from..]]
    else if nest == 0 && s[p] == ',' then [s[from..p]] + Split(s, p + 1, p + 1, nest)
    else Split(s, from, p + 1, Nested(s[p], nest))
  }

  function Join(tokens: seq<string>): string
    requires tokens != []
  {
    if |tokens| == 1 then tokens[0] else tokens[0] + "," + Join(tokens[1..])
  }

  /** Cutting a clause loses nothing. */
  lemma {:induction false} JoinSplit(s: string, from: nat, p: nat, nest: int)
    requires from <= p <= |s|
    ensures Join(Split(s, from, p, nest)) == s[from..]
    decreases |s| - p
  {
    if p == |s| {
    } else if nest == 0 && s[p] == ',' {
      JoinSplit(s, p + 1, p + 1, nest);
      var rest := Split(s, p + 1, p + 1, nest);
      assert ([s[from..p]] + rest)[1..] == rest;
      assert s[from..] == s[from..p] + "," + s[p + 1..];
    } else {
      JoinSplit(s, from, p + 1, Nested(s[p], nest));
    }
  }

  // ---- the call stack

  /** What stops an expansion: the variables being expanded, or a plain bound on their nesting. */
  datatype Guard = Stack(active: seq<nat>) | Fuel(left: nat)

  function Times(active: seq<nat>, v: nat): nat { multiset(active)[v] }

  ghost predicate Bounded(w: World, g: Guard) {
    g.Stack? ==>
      && (forall v :: v in g.active ==> v < |w.vars|)
      && (forall v :: 0 <= v < |w.vars| ==> Times(g.active, v) <= MAX_DEPTH + 1)
  }

  /** How often a variable may still be entered. */
  ghost function Rank(w: World, g: Guard): nat
    requires Bounded(w, g)
  {
    if g.Fuel? then g.left
    else
      StackFits(w, g);
      (MAX_DEPTH + 1) * |w.vars| - |g.active|
  }

  lemma {:induction false} StackIsShort(m: multiset<nat>, n: nat)
    requires forall v :: v in m ==> v < n
    requires forall v :: 0 <= v < n ==> m[v] <= MAX_DEPTH + 1
    ensures |m| <= (MAX_DEPTH + 1) * n
  {
    if n == 0 {
      assert m == multiset{};
    } else {
      var rest := m[n - 1 := 0];
      assert |rest| == |m| - m[n - 1];
      StackIsShort(rest, n - 1);
    }
  }

  lemma StackFits(w: World, g: Guard)
    requires Bounded(w, g) && g.Stack?
    ensures |g.active| <= (MAX_DEPTH + 1) * |w.vars|
  {
    var m := multiset(g.active);
    forall v | 0 <= v < |w.vars|
      ensures m[v] <= MAX_DEPTH + 1
    {
      assert Times(g.active, v) <= MAX_DEPTH + 1;
    }
    forall v | v in m
      ensures v < |w.vars|
    {
      assert v in g.active;
    }
    StackIsShort(m, |w.vars|);
  }

  predicate Protects(e: Error) { e.SelfReference? || e.TooDeep? || e.OutOfFuel? }

  /** The error that stops the entry into a variable, if any. */
  function Refusal(g: Guard, v: nat, name: string, argc: nat): (r: Option<Error>)
    ensures r.Some? ==> Protects(r.value)
  {
    match g
    case Fuel(left) => if left == 0 then Some(OutOfFuel) else None
    case Stack(active) =>
      if argc == 0 && v in active then Some(SelfReference(name))
      else if Times(active, v) > MAX_DEPTH then Some(TooDeep)
      else None
  }

  function Enter(g: Guard, v: nat): Guard
    requires g.Fuel? ==> g.left > 0
  {
    if g.Fuel? then Fuel(g.left - 1) else Stack(g.active + [v])
  }

  lemma EnterBounded(w: World, g: Guard, v: nat, name: string, argc: nat)
    requires Bounded(w, g) && v < |w.vars| && Refusal(g, v, name, argc).None?
    ensures Bounded(w, Enter(g, v)) && Rank(w, Enter(g, v)) < Rank(w, g)
  {
    if g.Stack? {
      assert multiset(g.active + [v]) == multiset(g.active) + multiset{v};
      forall u | 0 <= u < |w.vars|
        ensures Times(g.active + [v], u) <= MAX_DEPTH + 1
      {
        assert Times(g.active, u) <= MAX_DEPTH + 1;
      }
    }
  }

  // ---- what a string expands to

  function Lookup(vars: seq<Variable>, name: string, from: nat): (r: Option<nat>)
    requires from <= |vars|
    ensures r.Some? ==> r.value < |vars|
    decreases |vars| - from
  {
    if from == |vars| then None
    else if vars[from].name == name then Some(from)
    else Lookup(vars, name, from + 1)
  }

  function Prepend(s: string, r: Result): Result {
    match r case Ok(t) => Ok(s + t) case Err(_) => r
  }

  /** A string is expanded from left to right, reference by reference. */
  function Expand(w: World, g: Guard, s: string, args: seq<string>): Result
    requires Bounded(w, g)
    decreases Rank(w, g), |s|, 0
  {
    if s == "" then Ok("")
    else if s[0] != '$' then Prepend(s[..1], Expand(w, g, s[1..], args))
    else if |s| == 1 || s[1] != '(' then Prepend("$", Expand(w, g, s[1..], args))
    else
      match Closing(s, 2, 0)
      case None => Err(Unterminated(s[2..]))
      case Some(q) =>
        var clause := Clause(w, g, s[2..q], args);
        if clause.Err? then clause else Prepend(clause.text, Expand(w, g, s[q + 1..], args))
  }

  /** A reference is an argument of the enclosing call, or a name and arguments to be expanded first. */
  function Clause(w: World, g: Guard, clause: string, args: seq<string>): Result
    requires Bounded(w, g)
    decreases Rank(w, g), |clause|, |clause| + 3
  {
    var n := w.number(clause);
    if 0 < n <= |args| then Ok(args[n - 1])
    else
      var tokens := Split(clause, 0, 0, 0);
      if |tokens| > MAX_ARGS then Err(TooManyArguments)
      else
        match ExpandAll(w, g, tokens, args, |clause|)
        case Failed(e) => Err(e)
        case Texts(texts) => Apply(w, g, texts[0], texts[1..])
  }

  function ExpandAll(w: World, g: Guard, tokens: seq<string>, args: seq<string>, limit: nat): (r: Results)
    requires Bounded(w, g) && forall t :: t in tokens ==> |t| <= limit
    ensures r.Texts? ==> |r.texts| == |tokens|
    decreases Rank(w, g), limit, |tokens| + 1
  {
    if tokens == [] then Texts([])
    else
      match Expand(w, g, tokens[0], args)
      case Err(e) => Failed(e)
      case Ok(t) =>
        match ExpandAll(w, g, tokens[1..], args, limit)
        case Failed(e) => Failed(e)
        case Texts(ts) => Texts([t] + ts)
  }

  /** A variable hides a built-in function, which hides the environment. */
  function Apply(w: World, g: Guard, name: string, args: seq<string>): Result
    requires Bounded(w, g)
    decreases Rank(w, g), 0, 0
  {
    match Lookup(w.vars, name, 0)
    case Some(v) =>
      var refusal := Refusal(g, v, name, |args|);
      if refusal.Some? then Err(refusal.value)
      else if w.vars[v].flavor == Simple then Ok(w.vars[v].value)
      else
        EnterBounded(w, g, v, name, |args|);
        Expand(w, Enter(g, v), w.vars[v].value, args)
    case None => Outside(w, name, args)
  }

  function Outside(w: World, name: string, args: seq<string>): Result {
    match w.builtin(name, args)
    case Returns(text) => Ok(text)
    case Complains => Err(Builtin(name))
    case NoSuchFunction =>
      if args == [] && name != "" && w.environment(name).Some? then Ok(w.environment(name).value) else Ok("")
  }

  /** An error stops, a text goes in front of what follows. */
  function Then(r: Result, rest: Result): Result {
    if r.Err? then r else Prepend(r.text, rest)
  }

  lemma {:induction false} ClosingStays(s: string, t: string, q: nat, nest: nat)
    requires q <= |s| && Closing(s, q, nest).Some?
    ensures Closing(s + t, q, nest) == Closing(s, q, nest)
    decreases |s| - q
  {
    if !(s[q] == ')' && nest == 0) {
      ClosingStays(s, t, q + 1, if s[q] == '(' then nest + 1 else if s[q] == ')' then nest - 1 else nest);
    }
  }

  lemma ReferenceFirst(w: World, g: Guard, t: string, args: seq<string>)
    requires Bounded(w, g) && |t| >= 2 && t[0] == '$' && t[1] == '('
    ensures Expand(w, g, t, args) ==
      match Closing(t, 2, 0)
      case None => Err(Unterminated(t[2..]))
      case Some(q) => Then(Clause(w, g, t[2..q], args), Expand(w, g, t[q + 1..], args))
  {
  }

  lemma Grown(s: string, t: string, r: Result)
    ensures Prepend(s, Prepend(t, r)) == Prepend(s + t, r)
  {
    if r.Ok? { assert s + (t + r.text) == s + t + r.text; }
  }

  predicate StartsReference(s: string) { |s| >= 2 && s[0] == '$' && s[1] == '(' }

  lemma PlainFirst(w: World, g: Guard, s: string, args: seq<string>)
    requires Bounded(w, g) && s != "" && !StartsReference(s)
    ensures Expand(w, g, s, args) == Prepend(s[..1], Expand(w, g, s[1..], args))
  {
    if s[0] == '$' { assert s[..1] == "$"; }
  }

  lemma PlainAt(w: World, g: Guard, s: string, args: seq<string>, first: string, rest: string)
    requires Bounded(w, g) && s != "" && !StartsReference(s) && first == s[..1] && rest == s[1..]
    ensures Expand(w, g, s, args) == Then(Ok(first), Expand(w, g, rest, args))
  {
    PlainFirst(w, g, s, args);
  }

  lemma FirstOfBoth(s: string, t: string)
    requires s != ""
    ensures (s + t)[1..] == s[1..] + t && (s + t)[..1] == s[..1]
  {
  }

  lemma AppendPlain(w: World, g: Guard, s: string, t: string, u: string, args: seq<string>)
    requires Bounded(w, g) && s != "" && !StartsReference(s) && u == s + t && !StartsReference(u)
    requires Expand(w, g, s[1..] + t, args) == Then(Expand(w, g, s[1..], args), Expand(w, g, t, args))
    ensures Expand(w, g, u, args) == Then(Expand(w, g, s, args), Expand(w, g, t, args))
  {
    var first, rest := s[..1], s[1..];
    FirstOfBoth(s, t);
    PlainAt(w, g, s, args, first, rest);
    PlainAt(w, g, u, args, first, rest + t);
    ThenTwice(Ok(first), Expand(w, g, rest, args), Expand(w, g, t, args));
  }

  lemma ReferenceAt(w: World, g: Guard, s: string, args: seq<string>, q: nat, clause: string, rest: string)
    requires Bounded(w, g) && StartsReference(s) && Closing(s, 2, 0) == Some(q)
    requires clause == s[2..q] && rest == s[q + 1..]
    ensures Expand(w, g, s, args) == Then(Clause(w, g, clause, args), Expand(w, g, rest, args))
  {
    ReferenceFirst(w, g, s, args);
  }

  lemma ClosedReference(w: World, g: Guard, s: string, args: seq<string>) returns (q: nat)
    requires Bounded(w, g) && StartsReference(s) && Expand(w, g, s, args).Ok?
    ensures Closing(s, 2, 0) == Some(q) && Expand(w, g, s[q + 1..], args).Ok?
  {
    ReferenceFirst(w, g, s, args);
    q := Closing(s, 2, 0).value;
  }

  lemma PartsOfBoth(s: string, t: string, q: nat)
    requires 2 <= q < |s|
    ensures (s + t)[2..q] == s[2..q] && (s + t)[q + 1..] == s[q + 1..] + t
  {
  }

  lemma AppendReference(w: World, g: Guard, s: string, t: string, u: string, args: seq<string>, q: nat)
    requires Bounded(w, g) && StartsReference(s) && Closing(s, 2, 0) == Some(q) && u == s + t
    requires Expand(w, g, s[q + 1..] + t, args) == Then(Expand(w, g, s[q + 1..], args), Expand(w, g, t, args))
    ensures Expand(w, g, u, args) == Then(Expand(w, g, s, args), Expand(w, g, t, args))
  {
    var clause, rest := s[2..q], s[q + 1..];
    ClosingStays(s, t, 2, 0);
    PartsOfBoth(s, t, q);
    ReferenceAt(w, g, s, args, q, clause, rest);
    ReferenceAt(w, g, u, args, q, clause, rest + t);
    ThenTwice(Clause(w, g, clause, args), Expand(w, g, rest, args), Expand(w, g, t, args));
  }

  lemma ThenTwice(a: Result, b: Result, c: Result)
    ensures Then(a, Then(b, c)) == Then(Then(a, b), c)
  {
    if a.Ok? && b.Ok? { Grown(a.text, b.text, c); }
  }

  /** Expansion goes from left to right: a string that ends outside a reference and not with a dollar
      sign can be expanded apart from what follows. */
  lemma {:induction false} ExpandAppend(w: World, g: Guard, s: string, t: string, args: seq<string>)
    requires Bounded(w, g) && Expand(w, g, s, args).Ok? && (s != "" ==> s[|s| - 1] != '$')
    ensures Expand(w, g, s + t, args) == Then(Expand(w, g, s, args), Expand(w, g, t, args))
    decreases |s|
  {
    if s == "" {
      assert s + t == t;
      var rest := Expand(w, g, t, args);
      if rest.Ok? { assert "" + rest.text == rest.text; }
    } else if StartsReference(s) {
      var q := ClosedReference(w, g, s, args);
      ExpandAppend(w, g, s[q + 1..], t, args);
      AppendReference(w, g, s, t, s + t, args, q);
    } else {
      PlainFirst(w, g, s, args);
      ExpandAppend(w, g, s[1..], t, args);
      AppendPlain(w, g, s, t, s + t, args);
    }
  }

  // ---- the counters are no more than a guard

  /** An answer other than a refusal is the answer of the unguarded rules: with Rank or more levels
      of nesting allowed, they give the same. So an endless expansion is always refused. */
  lemma {:induction false} GuardOnlyRefuses(w: World, g: Guard, s: string, args: seq<string>, fuel: nat)
    requires Bounded(w, g) && Rank(w, g) <= fuel
    ensures var r := Expand(w, g, s, args);
      (r.Err? && Protects(r.error)) || Expand(w, Fuel(fuel), s, args) == r
    decreases Rank(w, g), |s|, 0
  {
    if s == "" {
    } else if s[0] != '$' || |s| == 1 || s[1] != '(' {
      GuardOnlyRefuses(w, g, s[1..], args, fuel);
    } else {
      var q := Closing(s, 2, 0);
      if q.Some? {
        ClauseRefines(w, g, s[2..q.value], args, fuel);
        GuardOnlyRefuses(w, g, s[q.value + 1..], args, fuel);
      }
    }
  }

  lemma {:induction false} ClauseRefines(w: World, g: Guard, clause: string, args: seq<string>, fuel: nat)
    requires Bounded(w, g) && Rank(w, g) <= fuel
    ensures var r := Clause(w, g, clause, args);
      (r.Err? && Protects(r.error)) || Clause(w, Fuel(fuel), clause, args) == r
    decreases Rank(w, g), |clause|, |clause| + 3
  {
    var tokens := Split(clause, 0, 0, 0);
    if |tokens| <= MAX_ARGS && !(0 < w.number(clause) <= |args|) {
      AllRefine(w, g, tokens, args, |clause|, fuel);
      var all := ExpandAll(w, g, tokens, args, |clause|);
      if all.Texts? {
        ApplyRefines(w, g, all.texts[0], all.texts[1..], fuel);
      }
    }
  }

  lemma {:induction false} AllRefine(w: World, g: Guard, tokens: seq<string>, args: seq<string>, limit: nat, fuel: nat)
    requires Bounded(w, g) && Rank(w, g) <= fuel && forall t :: t in tokens ==> |t| <= limit
    ensures var r := ExpandAll(w, g, tokens, args, limit);
      (r.Failed? && Protects(r.error)) || ExpandAll(w, Fuel(fuel), tokens, args, limit) == r
    decreases Rank(w, g), limit, |tokens| + 1
  {
    if tokens != [] {
      GuardOnlyRefuses(w, g, tokens[0], args, fuel);
      AllRefine(w, g, tokens[1..], args, limit, fuel);
    }
  }

  lemma {:induction false} ApplyRefines(w: World, g: Guard, name: string, args: seq<string>, fuel: nat)
    requires Bounded(w, g) && Rank(w, g) <= fuel
    ensures var r := Apply(w, g, name, args);
      (r.Err? && Protects(r.error)) || Apply(w, Fuel(fuel), name, args) == r
    decreases Rank(w, g), 0, 0
  {
    var v := Lookup(w.vars, name, 0);
    if v.Some? && Refusal(g, v.value, name, |args|).None? {
      EnterBounded(w, g, v.value, name, |args|);
      GuardOnlyRefuses(w, Enter(g, v.value), w.vars[v.value].value, args, fuel - 1);
    }
  }

  // ---- when the guard refuses

  /** A variable is entered without arguments while it is being expanded, or for the 1002nd time at once. */
  predicate Reentered(active: seq<nat>, v: nat, argc: nat) {
    (argc == 0 && v in active) || Times(active, v) > MAX_DEPTH
  }

  /** Such an entry happens in the course of an unguarded expansion that starts with some variables on
      the call stack. Texts are those of the unguarded rules; a part is only reached if those before it
      have given texts. */
  ghost predicate Reenters(w: World, active: seq<nat>, fuel: nat, s: string, args: seq<string>)
    decreases fuel, |s|, 0
  {
    s != "" &&
    if s[0] != '$' || |s| == 1 || s[1] != '(' then Reenters(w, active, fuel, s[1..], args)
    else
      var q := Closing(s, 2, 0);
      q.Some? &&
      (ClauseReenters(w, active, fuel, s[2..q.value], args)
       || (Clause(w, Fuel(fuel), s[2..q.value], args).Ok? && Reenters(w, active, fuel, s[q.value + 1..], args)))
  }

  ghost predicate ClauseReenters(w: World, active: seq<nat>, fuel: nat, clause: string, args: seq<string>)
    decreases fuel, |clause|, |clause| + 3
  {
    var tokens := Split(clause, 0, 0, 0);
    && !(0 < w.number(clause) <= |args|) && |tokens| <= MAX_ARGS
    && (AllReenter(w, active, fuel, tokens, args, |clause|)
        || (var all := ExpandAll(w, Fuel(fuel), tokens, args, |clause|);
            all.Texts? && ApplyReenters(w, active, fuel, all.texts[0], all.texts[1..])))
  }

  ghost predicate AllReenter(w: World, active: seq<nat>, fuel: nat, tokens: seq<string>, args: seq<string>, limit: nat)
    requires forall t :: t in tokens ==> |t| <= limit
    decreases fuel, limit, |tokens| + 1
  {
    tokens != [] &&
    (Reenters(w, active, fuel, tokens[0], args)
     || (Expand(w, Fuel(fuel), tokens[0], args).Ok? && AllReenter(w, active, fuel, tokens[1..], args, limit)))
  }

  ghost predicate ApplyReenters(w: World, active: seq<nat>, fuel: nat, name: string, args: seq<string>)
    decreases fuel, 0, 0
  {
    var v := Lookup(w.vars, name, 0);
    v.Some? &&
    (Reentered(active, v.value, |args|)
     || (w.vars[v.value].flavor == Recursive && fuel > 0
         && Reenters(w, active + [v.value], fuel - 1, w.vars[v.value].value, args)))
  }

  /** The guard refuses an expansion exactly if a variable is re-entered in that way. */
  lemma {:induction false} RefusedIff(w: World, active: seq<nat>, s: string, args: seq<string>, fuel: nat)
    requires Bounded(w, Stack(active)) && Rank(w, Stack(active)) <= fuel
    ensures var r := Expand(w, Stack(active), s, args);
      (r.Err? && Protects(r.error)) <==> Reenters(w, active, fuel, s, args)
    decreases Rank(w, Stack(active)), |s|, 0
  {
    if s == "" {
    } else if s[0] != '$' || |s| == 1 || s[1] != '(' {
      RefusedIff(w, active, s[1..], args, fuel);
    } else {
      var q := Closing(s, 2, 0);
      if q.Some? {
        ClauseRefusedIff(w, active, s[2..q.value], args, fuel);
        ClauseRefines(w, Stack(active), s[2..q.value], args, fuel);
        RefusedIff(w, active, s[q.value + 1..], args, fuel);
      }
    }
  }

  lemma {:induction false} ClauseRefusedIff(w: World, active: seq<nat>, clause: string, args: seq<string>, fuel: nat)
    requires Bounded(w, Stack(active)) && Rank(w, Stack(active)) <= fuel
    ensures var r := Clause(w, Stack(active), clause, args);
      (r.Err? && Protects(r.error)) <==> ClauseReenters(w, active, fuel, clause, args)
    decreases Rank(w, Stack(active)), |clause|, |clause| + 3
  {
    var tokens := Split(clause, 0, 0, 0);
    if |tokens| <= MAX_ARGS && !(0 < w.number(clause) <= |args|) {
      AllRefusedIff(w, active, tokens, args, |clause|, fuel);
      AllRefine(w, Stack(active), tokens, args, |clause|, fuel);
      var all := ExpandAll(w, Stack(active), tokens, args, |clause|);
      if all.Texts? {
        ApplyRefusedIff(w, active, all.texts[0], all.texts[1..], fuel);
      }
    }
  }

  lemma {:induction false} AllRefusedIff(w: World, active: seq<nat>, tokens: seq<string>, args: seq<string>, limit: nat,
                                         fuel: nat)
    requires Bounded(w, Stack(active)) && Rank(w, Stack(active)) <= fuel && forall t :: t in tokens ==> |t| <= limit
    ensures var r := ExpandAll(w, Stack(active), tokens, args, limit);
      (r.Failed? && Protects(r.error)) <==> AllReenter(w, active, fuel, tokens, args, limit)
    decreases Rank(w, Stack(active)), limit, |tokens| + 1
  {
    if tokens != [] {
      RefusedIff(w, active, tokens[0], args, fuel);
      GuardOnlyRefuses(w, Stack(active), tokens[0], args, fuel);
      AllRefusedIff(w, active, tokens[1..], args, limit, fuel);
    }
  }

  lemma {:induction false} ApplyRefusedIff(w: World, active: seq<nat>, name: string, args: seq<string>, fuel: nat)
    requires Bounded(w, Stack(active)) && Rank(w, Stack(active)) <= fuel
    ensures var r := Apply(w, Stack(active), name, args);
      (r.Err? && Protects(r.error)) <==> ApplyReenters(w, active, fuel, name, args)
    decreases Rank(w, Stack(active)), 0, 0
  {
    var v := Lookup(w.vars, name, 0);
    if v.Some? && Refusal(Stack(active), v.value, name, |args|).None? {
      EnterBounded(w, Stack(active), v.value, name, |args|);
      RefusedIff(w, active + [v.value], w.vars[v.value].value, args, fuel - 1);
    }
  }

  // ---- the guard is stricter than termination

  /** A string that is one reference expands as its clause. */
  lemma OneReference(w: World, g: Guard, s: string, args: seq<string>)
    requires Bounded(w, g) && |s| >= 3 && s[0] == '$' && s[1] == '(' && Closing(s, 2, 0) == Some(|s| - 1)
    ensures Expand(w, g, s, args) == Clause(w, g, s[2..|s| - 1], args)
  {
    var r := Clause(w, g, s[2..|s| - 1], args);
    assert Expand(w, g, s[|s|..], args) == Ok("");
    if r.Ok? { assert r.text + "" == r.text; }
  }

  /** A clause of one part without a meaning as a number is a name. */
  lemma OneName(w: World, g: Guard, clause: string, args: seq<string>, name: string)
    requires w.number(clause) == 0 || w.number(clause) > |args|
    requires Bounded(w, g) && Split(clause, 0, 0, 0) == [clause] && Expand(w, g, clause, args) == Ok(name)
    ensures Clause(w, g, clause, args) == Apply(w, g, name, [])
  {
    assert ExpandAll(w, g, [clause][1..], args, |clause|) == Texts([]);
    assert ExpandAll(w, g, [clause], args, |clause|) == Texts([name]);
  }

  lemma {:induction false} Plain(w: World, g: Guard, s: string, args: seq<string>)
    requires Bounded(w, g) && '$' !in s
    ensures Expand(w, g, s, args) == Ok(s)
    decreases |s|
  {
    if s != "" {
      Plain(w, g, s[1..], args);
      assert s == s[..1] + s[1..];
    }
  }

  /** A function f whose text is $($(1)), called with its own name. */
  ghost predicate CallsItsArgument(w: World) {
    && w.vars == [Variable("f", "$($(1))", Recursive)]
    && w.number("1") == 1 && w.number("f,f") == w.number("f") == w.number("$(1)") == 0
    && w.builtin("1", []).NoSuchFunction? && w.builtin("", []).NoSuchFunction? && w.environment("1").None?
  }

  lemma BodyCalls(w: World, g: Guard, args: seq<string>, name: string)
    requires CallsItsArgument(w) && Bounded(w, g)
    requires Clause(w, g, "1", args) == Ok(name)
    ensures Expand(w, g, "$($(1))", args) == Apply(w, g, name, [])
  {
    var s, t := "$($(1))", "$(1)";
    assert Closing(s, 2, 0) == Some(6) && s[2..6] == t;
    assert Closing(t, 2, 0) == Some(3) && t[2..3] == "1";
    OneReference(w, g, t, args);
    assert Split(t, 0, 0, 0) == [t];
    OneName(w, g, t, args, name);
    OneReference(w, g, s, args);
  }

  lemma TwoParts(c: string)
    requires c == "f,f"
    ensures Split(c, 0, 0, 0) == ["f", "f"]
  {
    assert Split(c, 2, 3, 0) == [c[2..]] == ["f"];
    assert Split(c, 2, 2, 0) == Split(c, 2, 3, Nested(c[2], 0));
    assert c[0..1] == "f" && [c[0..1]] + ["f"] == ["f", "f"];
    assert Split(c, 0, 1, 0) == [c[0..1]] + Split(c, 2, 2, 0);
    assert Split(c, 0, 0, 0) == Split(c, 0, 1, Nested(c[0], 0));
  }

  lemma CallStarts(w: World, g: Guard)
    requires CallsItsArgument(w) && Bounded(w, g)
    ensures Expand(w, g, "$(f,f)", []) == Apply(w, g, "f", ["f"])
  {
    var s, c := "$(f,f)", "f,f";
    assert Closing(s, 2, 0) == Some(5) && s[2..5] == c;
    OneReference(w, g, s, []);
    var tokens := Split(c, 0, 0, 0);
    TwoParts(c);
    Plain(w, g, "f", []);
    assert ExpandAll(w, g, tokens[1..][1..], [], 3) == Texts([]);
    assert ExpandAll(w, g, tokens[1..], [], 3) == Texts(["f"]);
    assert ExpandAll(w, g, tokens, [], 3) == Texts(["f", "f"]);
  }

  lemma OnlyF(w: World)
    requires CallsItsArgument(w)
    ensures Lookup(w.vars, "f", 0) == Some(0) && Lookup(w.vars, "1", 0) == None && Lookup(w.vars, "", 0) == None
  {
    var f := w.vars[0].name;
    assert f == "f" && f[0] != "1"[0] && |f| != |""|;
    assert Lookup(w.vars, "1", 1) == None && Lookup(w.vars, "", 1) == None;
  }

  /** $(f,f) would end, giving nothing; the counters refuse it, because f is entered again without
      arguments. */
  lemma GuardRefusesMore(w: World)
    requires CallsItsArgument(w)
    ensures Expand(w, Stack([]), "$(f,f)", []) == Err(SelfReference("f"))
    ensures Expand(w, Fuel(2), "$(f,f)", []) == Ok("")
  {
    CallStarts(w, Stack([]));
    CallStarts(w, Fuel(2));
    OnlyF(w);
    assert [] + [0] == [0];
    EnterBounded(w, Stack([]), 0, "f", 1);
    BodyCalls(w, Stack([0]), ["f"], "f");
    BodyCalls(w, Fuel(1), ["f"], "f");
    Plain(w, Fuel(0), "1", []);
    assert Split("1", 0, 0, 0) == ["1"];
    OneName(w, Fuel(0), "1", [], "1");
    BodyCalls(w, Fuel(0), [], "");
  }

  // ---- the program

  class Preprocessor {
    const w: World
    /** exp_count of each variable. */
    var expCount: seq<nat>

    constructor (w: World)
      ensures this.w == w && Counts([])
    {
      this.w := w;
      expCount := seq(|w.vars|, i => 0);
    }

    /** The counters say how often each variable is on the call stack. */
    ghost predicate Counts(active: seq<nat>)
      reads this
    {
      && Bounded(w, Stack(active)) && |expCount| == |w.vars|
      && forall v :: 0 <= v < |w.vars| ==> expCount[v] == Times(active, v)
    }

    method VariableLookup(name: string) returns (r: Option<nat>)
      ensures r == Lookup(w.vars, name, 0)
    {
      var i := 0;
      while i < |w.vars|
        invariant i <= |w.vars| && Lookup(w.vars, name, 0) == Lookup(w.vars, name, i)
      {
        if w.vars[i].name == name {
          return Some(i);
        }
        i := i + 1;
      }
      return None;
    }

    /** variable_expand for the variable that the lookup has found. */
    method VariableExpand(v: nat, args: seq<string>, ghost active: seq<nat>) returns (r: Result)
      requires v < |w.vars| && Counts(active) && Lookup(w.vars, w.vars[v].name, 0) == Some(v)
      modifies `expCount
      ensures r == Apply(w, Stack(active), w.vars[v].name, args)
      ensures r.Ok? ==> expCount == old(expCount)
      decreases Rank(w, Stack(active)), 0, 0
    {
      var name := w.vars[v].name;
      assert Times(active, v) > 0 <==> v in active;
      if args == [] && expCount[v] > 0 {
        return Err(SelfReference(name));
      }
      if expCount[v] > MAX_DEPTH {
        return Err(TooDeep);
      }
      EnterBounded(w, Stack(active), v, name, |args|);
      expCount := expCount[v := expCount[v] + 1];
      if w.vars[v].flavor == Recursive {
        assert multiset(active + [v]) == multiset(active) + multiset{v};
        r := ExpandString(w.vars[v].value, args, active + [v]);
        if r.Err? {
          return;
        }
      } else {
        r := Ok(w.vars[v].value);
      }
      expCount := expCount[v := expCount[v] - 1];
    }

    /** eval_clause: cut the clause, expand its parts, look the name up. */
    method EvalClause(clause: string, args: seq<string>, ghost active: seq<nat>) returns (r: Result)
      requires Counts(active)
      modifies `expCount
      ensures r == Clause(w, Stack(active), clause, args)
      ensures r.Ok? ==> expCount == old(expCount)
      decreases Rank(w, Stack(active)), |clause|, |clause| + 5
    {
      var n := w.number(clause);
      if 0 < n <= |args| {
        return Ok(args[n - 1]);
      }
      var tokens := Cut(clause);
      if |tokens| > MAX_ARGS {
        return Err(TooManyArguments);
      }
      var all := ExpandTokens(tokens, args, |clause|, active);
      if all.Failed? {
        return Err(all.error);
      }
      var name, newArgs := all.texts[0], all.texts[1..];
      var v := VariableLookup(name);
      if v.Some? {
        LookupFindsName(w.vars, name, 0);
        r := VariableExpand(v.value, newArgs, active);
      } else {
        r := Outside(w, name, newArgs);
      }
    }

    method Cut(clause: string) returns (tokens: seq<string>)
      ensures tokens == Split(clause, 0, 0, 0)
    {
      tokens := [];
      var prev, p, nest := 0, 0, 0;
      ghost var all := Split(clause, 0, 0, 0);
      while p < |clause|
        invariant prev <= p <= |clause| && all == tokens + Split(clause, prev, p, nest)
      {
        if nest == 0 && clause[p] == ',' {
          MoreTokens(tokens, clause[prev..p], Split(clause, p + 1, p + 1, nest));
          tokens := tokens + [clause[prev..p]];
          prev := p + 1;
        } else {
          nest := Nested(clause[p], nest);
        }
        p := p + 1;
      }
      tokens := tokens + [clause[prev..]];
    }

    method ExpandTokens(tokens: seq<string>, args: seq<string>, limit: nat, ghost active: seq<nat>) returns (r: Results)
      requires Counts(active) && forall t :: t in tokens ==> |t| <= limit
      modifies `expCount
      ensures r == ExpandAll(w, Stack(active), tokens, args, limit)
      ensures r.Texts? ==> expCount == old(expCount)
      decreases Rank(w, Stack(active)), limit, 4
    {
      var texts, i := [], 0;
      ghost var g := Stack(active);
      assert tokens[0..] == tokens;
      while i < |tokens|
        invariant i <= |tokens| && expCount == old(expCount)
        invariant ExpandAll(w, g, tokens, args, limit) == Behind(texts, ExpandAll(w, g, tokens[i..], args, limit))
      {
        var e := ExpandString(tokens[i], args, active);
        NextToken(w, g, texts, tokens, i, args, limit);
        if e.Err? {
          return Failed(e.error);
        }
        texts := texts + [e.text];
        i := i + 1;
      }
      r := Texts(texts);
    }

    /** The place of the parenthesis that closes a reference, |s| if there is none. */
    method FindClosing(s: string, from: nat) returns (q: nat)
      requires from <= |s|
      ensures Closing(s, from, 0) == if q == |s| then None else Some(q)
      ensures from <= q <= |s|
    {
      var nest := 0;
      q := from;
      while q < |s| && !(s[q] == ')' && nest == 0)
        invariant from <= q <= |s| && nest >= 0
        invariant Closing(s, from, 0) == Closing(s, q, nest)
      {
        if s[q] == '(' {
          nest := nest + 1;
        } else if s[q] == ')' {
          nest := nest - 1;
        }
        q := q + 1;
      }
    }

    /** expand_dollar_with_args, with the position behind the dollar sign. */
    method ExpandDollar(s: string, p: nat, args: seq<string>, ghost active: seq<nat>) returns (r: Result, end: nat)
      requires Counts(active) && 0 < p <= |s| && s[p - 1] == '$'
      modifies `expCount
      ensures p <= end <= |s|
      ensures Expand(w, Stack(active), s[p - 1..], args) == Then(r, Expand(w, Stack(active), s[end..], args))
      ensures r.Ok? ==> expCount == old(expCount)
      decreases Rank(w, Stack(active)), |s|, 1
    {
      if p == |s| || s[p] != '(' {
        PlainDollar(w, Stack(active), s, p, args);
        return Ok("$"), p;
      }
      r, end := ExpandReference(s, p, args, active);
      DollarMeans(w, Stack(active), s, s[p - 1..], p, args, r, end);
    }

    /** The rest of it, for a dollar sign that begins a reference. */
    method ExpandReference(s: string, p: nat, args: seq<string>, ghost active: seq<nat>) returns (r: Result, end: nat)
      requires Counts(active) && 0 < p < |s| && s[p - 1] == '$' && s[p] == '('
      modifies `expCount
      ensures p <= end <= |s| && AtReference(w, Stack(active), s, p, args, r, end)
      ensures r.Ok? ==> expCount == old(expCount)
      decreases Rank(w, Stack(active)), |s|, 0
    {
      var q := FindClosing(s, p + 1);
      if q == |s| {
        return Err(Unterminated(s[p + 1..])), |s|;
      }
      r := EvalClause(s[p + 1..q], args, active);
      end := q + 1;
    }

    /** What __expand_string does at a dollar sign: the text before it and the expansion go out. */
    method TakeReference(out: string, s: string, p: nat, args: seq<string>, ghost active: seq<nat>)
      returns (r: Result, end: nat)
      requires Counts(active) && p < |s| && s[p] == '$'
      modifies `expCount
      ensures p < end <= |s|
      ensures Progress(w, Stack(active), out, s, p, args) ==
              if r.Err? then r else Progress(w, Stack(active), r.text, s, end, args)
      ensures r.Ok? ==> expCount == old(expCount)
      decreases Rank(w, Stack(active)), |s|, 2
    {
      r, end := ExpandDollar(s, p + 1, args, active);
      if r.Ok? {
        Grown(out, r.text, Expand(w, Stack(active), s[end..], args));
        r := Ok(out + r.text);
      }
    }

    /** __expand_string up to the end of the string. */
    method ExpandString(s: string, args: seq<string>, ghost active: seq<nat>) returns (r: Result)
      requires Counts(active)
      modifies `expCount
      ensures r == Expand(w, Stack(active), s, args)
      ensures r.Ok? ==> expCount == old(expCount)
      decreases Rank(w, Stack(active)), |s|, 3
    {
      var out, from, p := "", 0, 0;
      ghost var g := Stack(active);
      ghost var result := Expand(w, g, s, args);
      Started(w, g, s, args);
      while p < |s|
        invariant from <= p <= |s| && expCount == old(expCount)
        invariant result == Progress(w, g, out + s[from..p], s, p, args)
      {
        if s[p] == '$' {
          var expansion, end := TakeReference(out + s[from..p], s, p, args, active);
          if expansion.Err? {
            return expansion;
          }
          out, from, p := expansion.text, end, end;
          assert out + s[from..p] == out;
        } else {
          PlainCharacter(w, g, out, s, from, p, args);
          p := p + 1;
        }
      }
      Finished(w, g, out + s[from..p], s, args);
      r := Ok(out + s[from..p]);
    }
  }

  /** The expansion of a string whose first p characters have given out. */
  ghost function Progress(w: World, g: Guard, out: string, s: string, p: nat, args: seq<string>): Result
    requires Bounded(w, g) && p <= |s|
  {
    Prepend(out, Expand(w, g, s[p..], args))
  }

  lemma Started(w: World, g: Guard, s: string, args: seq<string>)
    requires Bounded(w, g)
    ensures Progress(w, g, "" + s[0..0], s, 0, args) == Expand(w, g, s, args)
  {
    assert s[0..] == s;
  }

  lemma Finished(w: World, g: Guard, out: string, s: string, args: seq<string>)
    requires Bounded(w, g)
    ensures Progress(w, g, out, s, |s|, args) == Ok(out)
  {
  }

  lemma PlainCharacter(w: World, g: Guard, out: string, s: string, from: nat, p: nat, args: seq<string>)
    requires Bounded(w, g) && from <= p < |s| && s[p] != '$'
    ensures Progress(w, g, out + s[from..p], s, p, args) == Progress(w, g, out + s[from..p + 1], s, p + 1, args)
  {
    var t := s[p..];
    assert t[1..] == s[p + 1..];
    assert out + s[from..p + 1] == out + s[from..p] + t[..1];
    Grown(out + s[from..p], t[..1], Expand(w, g, t[1..], args));
  }

  lemma PlainDollar(w: World, g: Guard, s: string, p: nat, args: seq<string>)
    requires Bounded(w, g) && 0 < p <= |s| && s[p - 1] == '$' && (p == |s| || s[p] != '(')
    ensures Expand(w, g, s[p - 1..], args) == Prepend("$", Expand(w, g, s[p..], args))
  {
    var t := s[p - 1..];
    assert t[1..] == s[p..];
  }

  lemma PartOfRest(s: string, t: string, p: nat, c: nat)
    requires 0 < p < c <= |s| && t == s[p - 1..]
    ensures t[2..c - p + 1] == s[p + 1..c] && t[2..] == s[p + 1..]
    ensures c < |s| ==> t[c - p + 1 + 1..] == s[c + 1..]
  {
  }

  lemma Reference(w: World, g: Guard, s: string, t: string, p: nat, args: seq<string>, q: nat)
    requires Bounded(w, g) && 0 < p < |s| && s[p - 1] == '$' && s[p] == '(' && t == s[p - 1..]
    requires Closing(s, p + 1, 0) == Some(q)
    ensures Expand(w, g, t, args) == Then(Clause(w, g, s[p + 1..q], args), Expand(w, g, s[q + 1..], args))
  {
    ClosingInPart(s, p - 1, p + 1, 0);
    PartOfRest(s, t, p, q);
    ReferenceAt(w, g, t, args, q - p + 1, s[p + 1..q], s[q + 1..]);
  }

  /** The result for a reference, and the position behind it. */
  ghost predicate AtReference(w: World, g: Guard, s: string, p: nat, args: seq<string>, r: Result, end: nat)
    requires Bounded(w, g) && p < |s|
  {
    match Closing(s, p + 1, 0)
    case None => r == Err(Unterminated(s[p + 1..]))
    case Some(q) => r == Clause(w, g, s[p + 1..q], args) && end == q + 1
  }

  lemma DollarMeans(w: World, g: Guard, s: string, t: string, p: nat, args: seq<string>, r: Result, end: nat)
    requires Bounded(w, g) && 0 < p < |s| && s[p - 1] == '$' && s[p] == '(' && t == s[p - 1..] && end <= |s|
    requires AtReference(w, g, s, p, args, r, end)
    ensures Expand(w, g, t, args) == Then(r, Expand(w, g, s[end..], args))
  {
    if Closing(s, p + 1, 0).Some? {
      ReferenceMeans(w, g, s, t, p, args, r, end, Closing(s, p + 1, 0).value);
    } else {
      OpenReference(w, g, s, t, p, args);
    }
  }

  lemma ReferenceMeans(w: World, g: Guard, s: string, t: string, p: nat, args: seq<string>, r: Result, end: nat, q: nat)
    requires Bounded(w, g) && 0 < p < |s| && s[p - 1] == '$' && s[p] == '(' && t == s[p - 1..]
    requires Closing(s, p + 1, 0) == Some(q) && r == Clause(w, g, s[p + 1..q], args) && end == q + 1
    ensures Expand(w, g, t, args) == Then(r, Expand(w, g, s[end..], args))
  {
    Reference(w, g, s, t, p, args, q);
  }

  lemma OpenReference(w: World, g: Guard, s: string, t: string, p: nat, args: seq<string>)
    requires Bounded(w, g) && 0 < p < |s| && s[p - 1] == '$' && s[p] == '(' && t == s[p - 1..]
    requires Closing(s, p + 1, 0) == None
    ensures Expand(w, g, t, args) == Err(Unterminated(s[p + 1..]))
  {
    ClosingInPart(s, p - 1, p + 1, 0);
    PartOfRest(s, t, p, |s|);
    ReferenceFirst(w, g, t, args);
  }

  function Behind(texts: seq<string>, r: Results): Results {
    if r.Texts? then Texts(texts + r.texts) else r
  }

  lemma MoreTokens(tokens: seq<string>, token: string, rest: seq<string>)
    ensures tokens + ([token] + rest) == tokens + [token] + rest
  {
  }

  lemma NextToken(w: World, g: Guard, texts: seq<string>, tokens: seq<string>, i: nat, args: seq<string>, limit: nat)
    requires Bounded(w, g) && i < |tokens| && forall t :: t in tokens ==> |t| <= limit
    ensures Behind(texts, ExpandAll(w, g, tokens[i..], args, limit)) ==
      match Expand(w, g, tokens[i], args)
      case Err(e) => Failed(e)
      case Ok(t) => Behind(texts + [t], ExpandAll(w, g, tokens[i + 1..], args, limit))
  {
    var rest := tokens[i..];
    assert rest[1..] == tokens[i + 1..];
    var e, all := Expand(w, g, tokens[i], args), ExpandAll(w, g, tokens[i + 1..], args, limit);
    if e.Ok? && all.Texts? { assert texts + ([e.text] + all.texts) == texts + [e.text] + all.texts; }
  }

  lemma {:induction false} LookupFindsName(vars: seq<Variable>, name: string, from: nat)
    requires from <= |vars|
    ensures Lookup(vars, name, from).Some? ==> vars[Lookup(vars, name, from).value].name == name
    decreases |vars| - from
  {
    if from < |vars| { LookupFindsName(vars, name, from + 1); }
  }

  /** Looking for the parenthesis in the rest of a string gives the same place. */
  lemma {:induction false} ClosingInPart(s: string, from: nat, q: nat, nest: nat)
    requires from <= q <= |s|
    ensures match Closing(s, q, nest)
      case None => Closing(s[from..], q - from, nest).None?
      case Some(c) => Closing(s[from..], q - from, nest) == Some(c - from)
    decreases |s| - q
  {
    if q < |s| {
      ClosingInPart(s, from, q + 1,
                    if s[q] == '(' then nest + 1 else if s[q] == ')' && nest > 0 then nest - 1 else nest);
    }
  }

}
