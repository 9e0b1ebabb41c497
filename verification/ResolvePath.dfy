/** The path resolver of the endpoint extractor: a demand-driven constant propagation over positions
    in the syntax tree of one function. */
module ResolvePath {
  import opened Wrappers

  /** A syntax node with its source range [pos, end). Children stand in visiting order: a call has its
      function and then its arguments, an assignment its left sides and then its right sides. */
  datatype Node = Node(kind: Kind, pos: nat, end: nat, children: seq<Node>)

  datatype Kind =
    | BasicLit(isString: bool, text: string)
    | Ident(name: string)
    | Selector(sel: string)
    | Call
    | Binary(isAdd: bool)
    | Paren
    | Assign(lhs: nat)
    | Other

  /** What the parser guarantees of a node: children nested in it and in source order; an operand
      closed off before the end of its parent. */
  ghost predicate WellFormed(n: Node) {
    && n.pos <= n.end
    && (n.kind.Ident? ==> n.pos < n.end)
    && (n.kind.Call? ==> n.children != [] && forall c <- n.children :: c.end < n.end)
    && (n.kind.Binary? ==> |n.children| == 2 && n.children[0].end < n.end)
    && (n.kind.Paren? ==> |n.children| == 1 && n.children[0].end < n.end)
    && (n.kind.Assign? ==> n.kind.lhs <= |n.children| && forall c <- n.children :: c.pos < c.end)
    && (forall c <- n.children :: n.pos <= c.pos && c.end <= n.end && WellFormed(c))
    && (forall i, j :: 0 <= i < j < |n.children| ==> n.children[i].end <= n.children[j].pos)
  }

  function CalleeName(n: Node): string {
    match n.kind
    case Selector(sel) => sel
    case Ident(name) => name
    case _ => ""
  }

  predicate IsQuote(c: char) { c == '`' || c == '"' }

  function TrimLeft(s: string): string {
    if s != [] && IsQuote(s[0]) then TrimLeft(s[1..]) else s
  }

  function TrimRight(s: string): string {
    if s != [] && IsQuote(s[|s| - 1]) then TrimRight(s[..|s| - 1]) else s
  }

  function Trim(s: string): string { TrimRight(TrimLeft(s)) }

  // ----- The reference: the last earlier assignment that resolves -----

  /** All assignments of a tree, in visiting order. */
  function Assigns(n: Node): seq<Node> {
    (if n.kind.Assign? then [n] else []) + AssignsIn(n.children)
  }

  function AssignsIn(ns: seq<Node>): seq<Node> {
    if ns == [] then [] else AssignsIn(ns[..|ns| - 1]) + Assigns(ns[|ns| - 1])
  }

  function Lefts(a: Node): seq<Node>
    requires a.kind.Assign? && a.kind.lhs <= |a.children|
  {
    a.children[..a.kind.lhs]
  }

  function Rights(a: Node): seq<Node>
    requires a.kind.Assign? && a.kind.lhs <= |a.children|
  {
    a.children[a.kind.lhs..]
  }

  predicate Binds(a: Node, i: nat, name: string)
    requires a.kind.Assign? && a.kind.lhs <= |a.children|
  {
    i < |Lefts(a)| && Lefts(a)[i].kind == Ident(name) && i < |Rights(a)|
  }

  ghost predicate AssignNode(a: Node) { a.kind.Assign? && WellFormed(a) }

  ghost predicate Known(assigns: seq<Node>) {
    forall a <- assigns :: AssignNode(a)
  }

  /** The right sides that the first k left sides of an assignment give to a name. */
  ghost function RightsFor(a: Node, name: string, k: nat): (cs: seq<Node>)
    requires AssignNode(a)
    ensures forall c <- cs :: WellFormed(c) && c.end <= a.end
  {
    if k == 0 then []
    else RightsFor(a, name, k - 1) + (if Binds(a, k - 1, name) then [Rights(a)[k - 1]] else [])
  }

  /** The right sides given to a name by assignments that end at or before a position. */
  ghost function Candidates(assigns: seq<Node>, name: string, pos: nat): (cs: seq<Node>)
    requires Known(assigns)
    ensures forall c <- cs :: WellFormed(c) && c.end <= pos
  {
    if assigns == [] then []
    else
      var a := assigns[|assigns| - 1];
      assert AssignNode(a);
      Candidates(assigns[..|assigns| - 1], name, pos) + (if a.end <= pos then RightsFor(a, name, |Lefts(a)|) else [])
  }

  /** What an expression resolves to in a function whose assignments are given. */
  ghost function Resolve(e: Node, assigns: seq<Node>): string
    requires WellFormed(e) && Known(assigns)
    decreases e.end, 0
  {
    match e.kind
    case BasicLit(isString, text) => if isString then Trim(text) else ""
    case Call =>
      if CalleeName(e.children[0]) == "Sprintf" && |e.children| > 1 then Resolve(e.children[1], assigns) else ""
    case Binary(isAdd) => if isAdd then Resolve(e.children[0], assigns) else ""
    case Paren => Resolve(e.children[0], assigns)
    case Ident(name) => LastResolved(Candidates(assigns, name, e.pos), assigns, e.end)
    case _ => ""
  }

  /** The last of some right sides that resolves to anything. */
  ghost function LastResolved(cs: seq<Node>, assigns: seq<Node>, end: nat): string
    requires Known(assigns)
    requires forall c <- cs :: WellFormed(c) && c.end < end
    decreases end, 0, |cs|
  {
    if cs == [] then ""
    else
      var r := Resolve(cs[|cs| - 1], assigns);
      if r != "" then r else LastResolved(cs[..|cs| - 1], assigns, end)
  }

  lemma {:induction false} AssignsWellFormed(n: Node)
    requires WellFormed(n)
    ensures forall a <- Assigns(n) :: AssignNode(a) && n.pos <= a.pos && a.end <= n.end
    decreases n, 0
  {
    AssignsInWellFormed(n, |n.children|);
    assert n.children[..|n.children|] == n.children;
  }

  lemma {:induction false} AssignsInWellFormed(n: Node, k: nat)
    requires WellFormed(n) && k <= |n.children|
    ensures forall a <- AssignsIn(n.children[..k]) :: AssignNode(a) && n.pos <= a.pos && a.end <= n.end
    decreases n.children, k
  {
    if k > 0 {
      assert n.children[..k][..k - 1] == n.children[..k - 1];
      assert n.children[k - 1] in n.children;
      AssignsInWellFormed(n, k - 1);
      AssignsWellFormed(n.children[k - 1]);
    }
  }

  // ----- The walk: prune, visit, overwrite -----

  ghost function Overwrite(found: string, r: string): string { if r != "" then r else found }

  lemma {:induction false} LastResolvedAppend(cs: seq<Node>, ds: seq<Node>, assigns: seq<Node>, end: nat)
    requires Known(assigns)
    requires forall c <- cs + ds :: WellFormed(c) && c.end < end
    ensures forall c <- cs :: c in cs + ds
    ensures forall d <- ds :: d in cs + ds
    ensures LastResolved(cs + ds, assigns, end)
         == Overwrite(LastResolved(cs, assigns, end), LastResolved(ds, assigns, end))
    decreases |ds|
  {
    assert forall c <- cs :: c in cs + ds;
    assert forall d <- ds :: d in cs + ds;
    if ds == [] {
      assert cs + ds == cs;
    } else {
      assert (cs + ds)[..|cs + ds| - 1] == cs + ds[..|ds| - 1];
      LastResolvedAppend(cs, ds[..|ds| - 1], assigns, end);
    }
  }

  lemma KnownParts(xs: seq<Node>, ys: seq<Node>)
    ensures Known(xs + ys) <==> Known(xs) && Known(ys)
  {
    hide AssignNode;
    assert forall a <- xs :: a in xs + ys;
    assert forall a <- ys :: a in xs + ys;
  }

  lemma KnownPrefix(assigns: seq<Node>, k: nat)
    requires Known(assigns) && k <= |assigns|
    ensures Known(assigns[..k])
  {
    hide AssignNode;
    assert assigns == assigns[..k] + assigns[k..];
    KnownParts(assigns[..k], assigns[k..]);
  }

  lemma CandidatesStep(xs: seq<Node>, x: Node, name: string, pos: nat)
    requires Known(xs + [x])
    ensures Known(xs) && Known([x])
    ensures Candidates(xs + [x], name, pos) == Candidates(xs, name, pos) + Candidates([x], name, pos)
  {
    KnownParts(xs, [x]);
    assert (xs + [x])[..|xs|] == xs;
    assert [x][..0] == [];
    assert AssignNode(x);
    hide AssignNode, Known, RightsFor;
  }

  lemma {:induction false} CandidatesAppend(xs: seq<Node>, ys: seq<Node>, name: string, pos: nat)
    requires Known(xs + ys)
    ensures Known(xs) && Known(ys)
    ensures Candidates(xs + ys, name, pos) == Candidates(xs, name, pos) + Candidates(ys, name, pos)
    decreases |ys|
  {
    KnownParts(xs, ys);
    if ys == [] {
      assert xs + ys == xs;
    } else {
      hide *;
      var init, last := ys[..|ys| - 1], ys[|ys| - 1];
      LastApart(xs, ys);
      CandidatesAppend(xs, init, name, pos);
      CandidatesStep(init, last, name, pos);
      CandidatesStep(xs + init, last, name, pos);
      Regroup(Candidates(xs, name, pos), Candidates(init, name, pos), Candidates([last], name, pos));
    }
  }

  lemma LastApart(xs: seq<Node>, ys: seq<Node>)
    requires ys != []
    ensures ys == ys[..|ys| - 1] + [ys[|ys| - 1]]
    ensures xs + ys == xs + ys[..|ys| - 1] + [ys[|ys| - 1]]
    ensures Known(xs + ys) ==> Known(xs + ys[..|ys| - 1])
  {
    var init, last := ys[..|ys| - 1], ys[|ys| - 1];
    assert ys == init + [last];
    assert xs + ys == xs + init + [last];
    KnownParts(xs + init, [last]);
  }

  lemma Regroup(a: seq<Node>, b: seq<Node>, c: seq<Node>)
    ensures a + b + c == a + (b + c)
  {
  }

  /** A tree that starts after the position holds no assignment that ends before it. */
  lemma {:induction false} PrunedHasNone(assigns: seq<Node>, name: string, pos: nat)
    requires forall a <- assigns :: AssignNode(a) && a.pos > pos
    ensures Candidates(assigns, name, pos) == []
  {
    if assigns != [] {
      assert AssignNode(assigns[|assigns| - 1]) && assigns[|assigns| - 1].pos > pos;
      PrunedHasNone(assigns[..|assigns| - 1], name, pos);
    }
  }

  /** The value left in found by visiting assignments that were found to resolve before. */
  ghost function FoundAfter(found: string, visited: seq<Node>, name: string, e: Node, assigns: seq<Node>): string
    requires Known(visited)
    requires Known(assigns)
    requires WellFormed(e) && e.kind.Ident?
  {
    Overwrite(found, LastResolved(Candidates(visited, name, e.pos), assigns, e.end))
  }

  lemma FoundAfterAppend(found: string, xs: seq<Node>, ys: seq<Node>, name: string, e: Node, assigns: seq<Node>)
    requires Known(xs + ys)
    requires Known(assigns)
    requires WellFormed(e) && e.kind.Ident?
    ensures Known(xs) && Known(ys)
    ensures FoundAfter(found, xs + ys, name, e, assigns)
         == FoundAfter(FoundAfter(found, xs, name, e, assigns), ys, name, e, assigns)
  {
    CandidatesAppend(xs, ys, name, e.pos);
    LastResolvedAppend(Candidates(xs, name, e.pos), Candidates(ys, name, e.pos), assigns, e.end);
  }

  /** Resolves a path expression; body is the enclosing function's, if it has one. */
  method Run(e: Node, body: Option<Node>) returns (r: string)
    requires WellFormed(e) && (body.Some? ==> WellFormed(body.value))
    ensures Known(AllAssigns(body))
    ensures r == Resolve(e, AllAssigns(body))
    decreases e.end, 1
  {
    AllAssignsWellFormed(body);
    match e.kind {
      case BasicLit(isString, text) =>
        if isString { return Trim(text); }
      case Call =>
        if CalleeName(e.children[0]) == "Sprintf" && |e.children| > 1 {
          r := Run(e.children[1], body);
          return;
        }
      case Binary(isAdd) =>
        if isAdd {
          r := Run(e.children[0], body);
          return;
        }
      case Paren =>
        r := Run(e.children[0], body);
        return;
      case Ident(name) =>
        if body.None? { return ""; }
        r := Inspect(body.value, name, e, body, "");
        return;
      case _ =>
    }
    r := "";
  }

  /** What the first k left sides of an assignment make of a name. */
  ghost function RightsFound(n: Node, name: string, k: nat, e: Node, all: seq<Node>): string
    requires AssignNode(n) && WellFormed(e) && e.kind.Ident? && n.end <= e.pos && Known(all)
  {
    LastResolved(RightsFor(n, name, k), all, e.end)
  }

  /** Visits one assignment that ends before the identifier. */
  method VisitAssign(n: Node, name: string, e: Node, body: Option<Node>, before: string) returns (found: string)
    requires AssignNode(n) && WellFormed(e) && e.kind == Ident(name) && n.end <= e.pos
    requires body.Some? ==> WellFormed(body.value)
    ensures Known(AllAssigns(body))
    ensures found == FoundAfter(before, [n], name, e, AllAssigns(body))
    decreases e.end, 0, n, 1
  {
    hide *;
    AllAssignsWellFormed(body);
    OwnFound(n, name, e, AllAssigns(body), before);
    found := before;
    for i := 0 to n.kind.lhs
      invariant found == Overwrite(before, RightsFound(n, name, i, e, AllAssigns(body)))
    {
      VisitStep(n, name, i, e, AllAssigns(body), before);
      found := VisitRight(n, i, name, e, body, found);
    }
  }

  lemma VisitStep(n: Node, name: string, i: nat, e: Node, all: seq<Node>, before: string)
    requires AssignNode(n) && WellFormed(e) && e.kind.Ident? && n.end <= e.pos && i < |Lefts(n)| && Known(all)
    ensures Binds(n, i, name) ==> WellFormed(Rights(n)[i])
    ensures Overwrite(before, RightsFound(n, name, i + 1, e, all))
         == var found := Overwrite(before, RightsFound(n, name, i, e, all));
            if Binds(n, i, name) then Overwrite(found, Resolve(Rights(n)[i], all)) else found
  {
    hide WellFormed, Known, Resolve, RightsFound, Binds;
    RightsStep(n, name, i, e, all);
  }

  lemma OwnFound(n: Node, name: string, e: Node, all: seq<Node>, before: string)
    requires AssignNode(n) && WellFormed(e) && e.kind == Ident(name) && n.end <= e.pos && Known(all)
    ensures FoundAfter(before, [n], name, e, all) == Overwrite(before, RightsFound(n, name, n.kind.lhs, e, all))
    ensures before == Overwrite(before, RightsFound(n, name, 0, e, all))
    ensures n.kind.Assign? && |Lefts(n)| == n.kind.lhs
  {
    OwnCandidates(n, name, e.pos);
  }

  /** One left side of it: the right side is resolved only if the name is the one looked for. */
  method VisitRight(n: Node, i: nat, name: string, e: Node, body: Option<Node>, before: string) returns (found: string)
    requires AssignNode(n) && WellFormed(e) && e.kind == Ident(name) && n.end <= e.pos && i < |Lefts(n)|
    requires body.Some? ==> WellFormed(body.value)
    ensures Known(AllAssigns(body))
    ensures Binds(n, i, name) ==> WellFormed(Rights(n)[i])
    ensures found == if Binds(n, i, name) then Overwrite(before, Resolve(Rights(n)[i], AllAssigns(body))) else before
    decreases e.end, 0, n, 0
  {
    AllAssignsWellFormed(body);
    found := before;
    if Lefts(n)[i].kind == Ident(name) && i < |Rights(n)| {
      RightInside(n, Rights(n)[i]);
      var resolved := Run(Rights(n)[i], body);
      if resolved != "" {
        found := resolved;
      }
    }
  }

  lemma RightsStep(n: Node, name: string, i: nat, e: Node, all: seq<Node>)
    requires AssignNode(n) && WellFormed(e) && e.kind.Ident? && n.end <= e.pos && i < |Lefts(n)| && Known(all)
    ensures Binds(n, i, name) ==> WellFormed(Rights(n)[i])
    ensures RightsFound(n, name, i + 1, e, all)
         == var before := RightsFound(n, name, i, e, all);
            if Binds(n, i, name) then Overwrite(before, Resolve(Rights(n)[i], all)) else before
  {
    var cs := RightsFor(n, name, i);
    if Binds(n, i, name) {
      assert Rights(n)[i] in n.children;
      hide Resolve;
      assert (cs + [Rights(n)[i]])[..|cs|] == cs;
    } else {
      assert RightsFor(n, name, i + 1) == cs;
    }
  }

  /** Visits a tree, descending only into nodes that start at or before the identifier; found is
      overwritten by every right side that resolves. */
  method Inspect(n: Node, name: string, e: Node, body: Option<Node>, before: string) returns (found: string)
    requires WellFormed(n) && WellFormed(e) && e.kind == Ident(name) && (body.Some? ==> WellFormed(body.value))
    ensures Known(AllAssigns(body))
    ensures Known(Assigns(n))
    ensures found == FoundAfter(before, Assigns(n), name, e, AllAssigns(body))
    decreases e.end, 0, n, 2
  {
    AllAssignsWellFormed(body);
    AssignsWellFormed(n);
    ghost var all := AllAssigns(body);
    found := before;
    if n.end > e.pos && n.pos > e.pos {
      PrunedHasNone(Assigns(n), name, e.pos);
      return;
    }
    ghost var own := if n.kind.Assign? then [n] else [];
    assert Assigns(n) == own + AssignsIn(n.children);
    NothingBefore(n, own, before, name, e, all);
    hide AllAssigns, Assigns, FoundAfter;
    if n.end <= e.pos && n.kind.Assign? {
      found := VisitAssign(n, name, e, body, found);
    }
    FoundAfterAppend(before, own, AssignsIn(n.children), name, e, all);
    found := InspectChildren(n, name, e, body, found);
  }

  method InspectChildren(n: Node, name: string, e: Node, body: Option<Node>, before: string) returns (found: string)
    requires WellFormed(n) && WellFormed(e) && e.kind == Ident(name) && (body.Some? ==> WellFormed(body.value))
    ensures Known(AllAssigns(body))
    ensures Known(AssignsIn(n.children))
    ensures found == FoundAfter(before, AssignsIn(n.children), name, e, AllAssigns(body))
    decreases e.end, 0, n, 1
  {
    hide *;
    AllAssignsWellFormed(body);
    ghost var all := AllAssigns(body);
    NoChildrenVisited(n, before, name, e, all);
    found := before;
    for i := 0 to |n.children|
      invariant Known(AssignsIn(n.children[..i]))
      invariant found == FoundAfter(before, AssignsIn(n.children[..i]), name, e, all)
    {
      ChildVisited(n, i, before, name, e, all);
      found := Inspect(n.children[i], name, e, body, found);
    }
    assert n.children[..|n.children|] == n.children;
  }

  lemma NoChildrenVisited(n: Node, before: string, name: string, e: Node, all: seq<Node>)
    requires WellFormed(n) && WellFormed(e) && e.kind.Ident? && Known(all)
    ensures Known(AssignsIn(n.children[..0]))
    ensures FoundAfter(before, AssignsIn(n.children[..0]), name, e, all) == before
  {
    NothingBefore(n, [], before, name, e, all);
  }

  lemma ChildVisited(n: Node, i: nat, before: string, name: string, e: Node, all: seq<Node>)
    requires WellFormed(n) && WellFormed(e) && e.kind.Ident? && Known(all) && i < |n.children|
    requires Known(AssignsIn(n.children[..i]))
    ensures WellFormed(n.children[i])
    ensures Known(Assigns(n.children[i])) && Known(AssignsIn(n.children[..i + 1]))
    ensures FoundAfter(before, AssignsIn(n.children[..i + 1]), name, e, all)
         == var found := FoundAfter(before, AssignsIn(n.children[..i]), name, e, all);
            FoundAfter(found, Assigns(n.children[i]), name, e, all)
  {
    assert n.children[i] in n.children;
    AssignsWellFormed(n.children[i]);
    AssignsInSnoc(n, i);
    hide Assigns, AssignsIn, FoundAfter, WellFormed, AssignNode;
    KnownParts(AssignsIn(n.children[..i]), Assigns(n.children[i]));
    FoundAfterAppend(before, AssignsIn(n.children[..i]), Assigns(n.children[i]), name, e, all);
  }

  /** Nothing visited, or only an assignment that ends too late, leaves found as it is. */
  lemma NothingBefore(n: Node, own: seq<Node>, before: string, name: string, e: Node, all: seq<Node>)
    requires WellFormed(n) && own <= [n] && (own != [] ==> n.kind.Assign?)
    requires WellFormed(e) && e.kind.Ident? && Known(all)
    ensures own == [] || n.end > e.pos ==> FoundAfter(before, own, name, e, all) == before
  {
    OwnCandidates(n, name, e.pos);
    if own != [] { assert own == [n]; }
  }

  lemma OwnCandidates(n: Node, name: string, pos: nat)
    requires WellFormed(n)
    ensures n.kind.Assign? ==> Candidates([n], name, pos) == if n.end <= pos then RightsFor(n, name, n.kind.lhs) else []
    ensures Candidates([], name, pos) == []
  {
    if n.kind.Assign? { assert [n][..0] == []; }
  }

  lemma AssignsInSnoc(n: Node, i: nat)
    requires i < |n.children|
    ensures AssignsIn(n.children[..i + 1]) == AssignsIn(n.children[..i]) + Assigns(n.children[i])
  {
    assert n.children[..i + 1][..i] == n.children[..i];
  }

  ghost function AllAssigns(body: Option<Node>): seq<Node> {
    if body.None? then [] else Assigns(body.value)
  }

  lemma AllAssignsWellFormed(body: Option<Node>)
    requires body.Some? ==> WellFormed(body.value)
    ensures Known(AllAssigns(body))
  {
    if body.Some? { AssignsWellFormed(body.value); }
  }

  // ----- A forward pass -----

  type Bindings = map<string, string>

  function Lookup(b: Bindings, name: string): string { if name in b then b[name] else "" }

  /** Evaluation with the names bound so far. */
  ghost function Eval(e: Node, b: Bindings): string
    requires WellFormed(e)
  {
    match e.kind
    case BasicLit(isString, text) => if isString then Trim(text) else ""
    case Call => if CalleeName(e.children[0]) == "Sprintf" && |e.children| > 1 then Eval(e.children[1], b) else ""
    case Binary(isAdd) => if isAdd then Eval(e.children[0], b) else ""
    case Paren => Eval(e.children[0], b)
    case Ident(name) => Lookup(b, name)
    case _ => ""
  }

  /** The first k left sides take their values, all evaluated with the old bindings; a right side
      that does not resolve leaves its name as it was. */
  ghost function Bind(a: Node, k: nat, earlier: Bindings): Bindings
    requires AssignNode(a)
  {
    if k == 0 then earlier
    else
      var b := Bind(a, k - 1, earlier);
      if k - 1 < |Lefts(a)| && k - 1 < |Rights(a)| && Lefts(a)[k - 1].kind.Ident?
         && Eval(Rights(a)[k - 1], earlier) != "" then
        b[Lefts(a)[k - 1].kind.name := Eval(Rights(a)[k - 1], earlier)]
      else b
  }

  ghost function Forward(assigns: seq<Node>): Bindings
    requires Known(assigns)
  {
    if assigns == [] then map[]
    else
      var a := assigns[|assigns| - 1];
      assert AssignNode(a);
      Bind(a, |Lefts(a)|, Forward(assigns[..|assigns| - 1]))
  }

  /** No assignment inside another: each ends before the next one starts. */
  ghost predicate Sequential(assigns: seq<Node>) {
    forall i, j :: 0 <= i < j < |assigns| ==> assigns[i].end <= assigns[j].pos
  }

  /** How many assignments there are up to the last one that ends at or before a position. */
  function Ended(assigns: seq<Node>, pos: nat): (m: nat)
    ensures m <= |assigns|
    ensures m > 0 ==> assigns[m - 1].end <= pos
    ensures forall i :: m <= i < |assigns| ==> assigns[i].end > pos
  {
    if assigns == [] then 0
    else if assigns[|assigns| - 1].end <= pos then |assigns|
    else Ended(assigns[..|assigns| - 1], pos)
  }

  /** No assignment ends inside the expression. */
  ghost predicate Undisturbed(e: Node, assigns: seq<Node>) {
    forall a <- assigns :: a.end <= e.pos || (e.end <= a.end && e.pos < a.end)
  }

  lemma {:induction false} CandidatesPrefix(assigns: seq<Node>, name: string, pos: nat)
    requires Known(assigns)
    ensures Known(assigns[..Ended(assigns, pos)])
    ensures Candidates(assigns, name, pos) == Candidates(assigns[..Ended(assigns, pos)], name, pos)
  {
    if assigns == [] || assigns[|assigns| - 1].end <= pos {
      assert assigns[..|assigns|] == assigns;
    } else {
      var before := assigns[..|assigns| - 1];
      CandidatesPrefix(before, name, pos);
      assert before[..Ended(before, pos)] == assigns[..Ended(assigns, pos)];
    }
  }

  /** A sub-expression sees the same finished assignments as the expression around it. */
  lemma SameEnded(e: Node, c: Node, assigns: seq<Node>)
    requires Undisturbed(e, assigns) && e.pos <= c.pos <= c.end < e.end
    ensures Undisturbed(c, assigns) && Ended(assigns, c.pos) == Ended(assigns, e.pos)
  {
  }

  lemma AssignOrder(assigns: seq<Node>, k: nat, j: nat)
    requires Sequential(assigns) && k < |assigns| && j < |assigns| && AssignNode(assigns[j])
    ensures j < k ==> assigns[j].end <= assigns[k].pos
    ensures j > k ==> assigns[k].end <= assigns[j].end
  {
  }

  lemma RightInside(a: Node, c: Node)
    requires AssignNode(a) && c in Rights(a)
    ensures WellFormed(c) && a.pos <= c.pos < c.end <= a.end
  {
    assert c in a.children;
  }

  /** The right sides of assignment number k see exactly the assignments before it. */
  lemma RightSees(assigns: seq<Node>, k: nat, c: Node)
    requires Sequential(assigns) && k < |assigns| && AssignNode(assigns[k]) && c in Rights(assigns[k])
    requires Known(assigns)
    ensures WellFormed(c) && c.end <= assigns[k].end
    ensures Undisturbed(c, assigns) && Ended(assigns, c.pos) == k
  {
    RightInside(assigns[k], c);
    assert forall j :: 0 <= j < |assigns| ==> AssignNode(assigns[j]);
    hide AssignNode, WellFormed, Known;
    forall j | 0 <= j < |assigns|
      ensures j < k ==> assigns[j].end <= assigns[k].pos
      ensures j > k ==> assigns[k].end <= assigns[j].end
    {
      AssignOrder(assigns, k, j);
    }
    hide Sequential;
    InsideOf(assigns, k, c);
  }

  lemma InsideOf(assigns: seq<Node>, k: nat, c: Node)
    requires k < |assigns| && assigns[k].pos <= c.pos < c.end <= assigns[k].end
    requires forall j :: 0 <= j < k ==> assigns[j].end <= assigns[k].pos
    requires forall j :: k < j < |assigns| ==> assigns[k].end <= assigns[j].end
    ensures Undisturbed(c, assigns) && Ended(assigns, c.pos) == k
  {
  }

  /** When no assignment contains another, the demand-driven answer for an expression is its value
      after a forward pass over the assignments that end before it. */
  lemma {:induction false} ResolveIsForward(e: Node, assigns: seq<Node>)
    requires WellFormed(e) && Sequential(assigns) && Undisturbed(e, assigns)
    requires Known(assigns)
    ensures Known(assigns[..Ended(assigns, e.pos)])
    ensures Resolve(e, assigns) == Eval(e, Forward(assigns[..Ended(assigns, e.pos)]))
    decreases e.end, 0
  {
    match e.kind {
      case Call =>
        if |e.children| > 1 {
          SameEnded(e, e.children[1], assigns);
          ResolveIsForward(e.children[1], assigns);
        }
      case Binary(_) =>
        SameEnded(e, e.children[0], assigns);
        ResolveIsForward(e.children[0], assigns);
      case Paren =>
        SameEnded(e, e.children[0], assigns);
        ResolveIsForward(e.children[0], assigns);
      case Ident(name) =>
        CandidatesPrefix(assigns, name, e.pos);
        LookupIsLast(e, name, assigns, Ended(assigns, e.pos));
      case _ =>
    }
  }

  lemma {:induction false} LookupIsLast(e: Node, name: string, assigns: seq<Node>, k: nat)
    requires WellFormed(e) && e.kind == Ident(name) && Sequential(assigns)
    requires Known(assigns)
    requires k <= Ended(assigns, e.pos)
    ensures Known(assigns[..k])
    ensures FoundAfter("", assigns[..k], name, e, assigns) == Lookup(Forward(assigns[..k]), name)
    decreases e.end, 0, k
  {
    hide *;
    if k == 0 {
      NothingBound(e, name, assigns);
    } else {
      LastKnown(assigns, k);
      EndsBy(assigns, e.pos, k - 1);
      LookupIsLast(e, name, assigns, k - 1);
      BindIsLast(e, name, assigns, k - 1, |Lefts(assigns[k - 1])|, Forward(assigns[..k - 1]));
      LastAssignment(e, name, assigns, k);
    }
  }

  lemma NothingBound(e: Node, name: string, assigns: seq<Node>)
    requires WellFormed(e) && e.kind == Ident(name) && Known(assigns)
    ensures Known(assigns[..0])
    ensures FoundAfter("", assigns[..0], name, e, assigns) == Lookup(Forward(assigns[..0]), name)
  {
  }

  lemma LastKnown(assigns: seq<Node>, k: nat)
    requires Known(assigns) && 0 < k <= |assigns|
    ensures Known(assigns[..k]) && Known(assigns[..k - 1])
    ensures var a := assigns[k - 1]; AssignNode(a) && a.kind.Assign? && a.kind.lhs <= |a.children|
  {
    KnownPrefix(assigns, k);
    KnownPrefix(assigns, k - 1);
    assert AssignNode(assigns[k - 1]);
  }

  lemma EndsBy(assigns: seq<Node>, pos: nat, i: nat)
    requires Sequential(assigns) && i < Ended(assigns, pos) && Known(assigns)
    ensures i < |assigns| && assigns[i].end <= pos
  {
    var m := Ended(assigns, pos);
    assert AssignNode(assigns[m - 1]);
    if i < m - 1 { assert assigns[i].end <= assigns[m - 1].pos; }
  }

  lemma LastAssignment(e: Node, name: string, assigns: seq<Node>, k: nat)
    requires WellFormed(e) && e.kind == Ident(name)
    requires Known(assigns)
    requires 0 < k <= |assigns| && AssignNode(assigns[k - 1]) && assigns[k - 1].end <= e.pos
    ensures Known(assigns[..k])
    ensures Known(assigns[..k - 1])
    ensures FoundAfter("", assigns[..k], name, e, assigns)
         == Overwrite(FoundAfter("", assigns[..k - 1], name, e, assigns),
                      RightsFound(assigns[k - 1], name, |Lefts(assigns[k - 1])|, e, assigns))
    ensures Forward(assigns[..k]) == Bind(assigns[k - 1], |Lefts(assigns[k - 1])|, Forward(assigns[..k - 1]))
  {
    KnownPrefix(assigns, k);
    KnownPrefix(assigns, k - 1);
    hide Resolve, LastResolved, RightsFor, Bind;
    var a := assigns[k - 1];
    assert assigns[..k][..k - 1] == assigns[..k - 1];
    LastResolvedAppend(Candidates(assigns[..k - 1], name, e.pos), RightsFor(a, name, |Lefts(a)|), assigns, e.end);
  }

  lemma {:induction false} BindIsLast(e: Node, name: string, assigns: seq<Node>, k: nat, n: nat, b: Bindings)
    requires WellFormed(e) && e.kind == Ident(name) && Sequential(assigns)
    requires Known(assigns)
    requires k < |assigns| && assigns[k].end <= e.pos && AssignNode(assigns[k]) && n <= |Lefts(assigns[k])|
    requires Known(assigns[..k]) && b == Forward(assigns[..k])
    ensures Lookup(Bind(assigns[k], n, b), name)
         == Overwrite(Lookup(b, name), RightsFound(assigns[k], name, n, e, assigns))
    decreases e.end, 0, 0, n + 1
  {
    hide *;
    if n == 0 {
      BindNothing(e, name, assigns[k], assigns, b);
    } else {
      BindIsLast(e, name, assigns, k, n - 1, b);
      RightValue(e, assigns, k, n - 1, b);
      BindIsLastStep(e, name, assigns[k], assigns, n, b);
    }
  }

  lemma BindNothing(e: Node, name: string, a: Node, all: seq<Node>, b: Bindings)
    requires WellFormed(e) && e.kind == Ident(name) && Known(all) && AssignNode(a) && a.end <= e.pos
    ensures Lookup(Bind(a, 0, b), name) == Overwrite(Lookup(b, name), RightsFound(a, name, 0, e, all))
  {
  }

  lemma BindIsLastStep(e: Node, name: string, a: Node, all: seq<Node>, n: nat, b: Bindings)
    requires WellFormed(e) && e.kind == Ident(name) && Known(all)
    requires AssignNode(a) && a.end <= e.pos && 0 < n <= |Lefts(a)|
    requires n - 1 < |Rights(a)| ==> && WellFormed(Rights(a)[n - 1])
                                     && Resolve(Rights(a)[n - 1], all) == Eval(Rights(a)[n - 1], b)
    requires Lookup(Bind(a, n - 1, b), name) == Overwrite(Lookup(b, name), RightsFound(a, name, n - 1, e, all))
    ensures Lookup(Bind(a, n, b), name) == Overwrite(Lookup(b, name), RightsFound(a, name, n, e, all))
  {
    hide WellFormed, Known, Resolve, Eval, RightsFound, Bind;
    RightsStep(a, name, n - 1, e, all);
    BindStep(a, name, n, b);
  }

  lemma {:induction false} RightValue(e: Node, assigns: seq<Node>, k: nat, i: nat, b: Bindings)
    requires WellFormed(e) && e.kind.Ident? && Sequential(assigns)
    requires Known(assigns)
    requires k < |assigns| && assigns[k].end <= e.pos && AssignNode(assigns[k])
    requires Known(assigns[..k]) && b == Forward(assigns[..k])
    ensures i < |Rights(assigns[k])| ==>
              && WellFormed(Rights(assigns[k])[i])
              && Resolve(Rights(assigns[k])[i], assigns) == Eval(Rights(assigns[k])[i], b)
    decreases e.end, 0, 0, 0
  {
    if i < |Rights(assigns[k])| {
      RightSees(assigns, k, Rights(assigns[k])[i]);
      ResolveIsForward(Rights(assigns[k])[i], assigns);
    }
  }

  lemma BindStep(a: Node, name: string, n: nat, earlier: Bindings)
    requires AssignNode(a) && 0 < n <= |Lefts(a)|
    ensures Binds(a, n - 1, name) ==> WellFormed(Rights(a)[n - 1])
    ensures Lookup(Bind(a, n, earlier), name)
         == var before := Lookup(Bind(a, n - 1, earlier), name);
            if Binds(a, n - 1, name) then Overwrite(before, Eval(Rights(a)[n - 1], earlier)) else before
  {
    if n - 1 < |Rights(a)| { assert Rights(a)[n - 1] in a.children; }
    hide Eval;
  }

  /** The same for a whole function body: an identifier gets the value of a forward pass. */
  lemma PathIsForward(e: Node, body: Node)
    requires WellFormed(e) && WellFormed(body) && Sequential(Assigns(body)) && Undisturbed(e, Assigns(body))
    ensures Known(Assigns(body))
    ensures Resolve(e, AllAssigns(Some(body))) == Eval(e, Forward(Assigns(body)[..Ended(Assigns(body), e.pos)]))
  {
    AssignsWellFormed(body);
    ResolveIsForward(e, Assigns(body));
  }
}
