/** What a path expression means, read off the syntax tree, against what the resolver answers for it. */
module PathMeaning {
  import opened ResolvePath

  /** t is what stands between the quotes at the ends of a text, of either kind and any number. */
  ghost predicate Unquotes(text: string, t: string) {
    exists i, j :: Between(text, i, j) && t == text[i..j]
  }

  ghost predicate Between(text: string, i: int, j: int) {
    && 0 <= i <= j <= |text|
    && (forall k :: 0 <= k < i || j <= k < |text| ==> text[k] == '`' || text[k] == '"')
    && (i < j ==> text[i] != '`' && text[i] != '"' && text[j - 1] != '`' && text[j - 1] != '"')
  }

  /** Left side i of assignment k is the name, has a right side, and stands in an assignment that ends
      at or before the position. */
  ghost predicate BoundAt(assigns: seq<Node>, k: nat, i: nat, name: string, pos: nat) {
    && k < |assigns| && assigns[k].kind.Assign? && assigns[k].end <= pos
    && i < assigns[k].kind.lhs && assigns[k].kind.lhs + i < |assigns[k].children|
    && assigns[k].children[i].kind == Ident(name)
  }

  /** That right side. */
  ghost function BoundTo(assigns: seq<Node>, k: nat, i: nat, name: string, pos: nat): (c: Node)
    requires Known(assigns) && BoundAt(assigns, k, i, name, pos)
    ensures WellFormed(c) && c.end <= pos
  {
    var a := assigns[k];
    assert AssignNode(a);
    var c := a.children[a.kind.lhs + i];
    assert c in a.children;
    c
  }

  /** A chain of heads leads from the expression to a string literal with t between its quotes: the
      first argument of Sprintf, however qualified; the left operand of +; the inside of parentheses;
      the last earlier right side of a name from which such a chain leads to a non-empty text. */
  ghost predicate Denotes(e: Node, t: string, assigns: seq<Node>)
    requires WellFormed(e) && Known(assigns)
    decreases e.end, 0
  {
    match e.kind
    case BasicLit(isString, text) => isString && Unquotes(text, t)
    case Call =>
      && (e.children[0].kind == Ident("Sprintf") || e.children[0].kind == Selector("Sprintf"))
      && |e.children| > 1 && Denotes(e.children[1], t, assigns)
    case Binary(isAdd) => isAdd && Denotes(e.children[0], t, assigns)
    case Paren => Denotes(e.children[0], t, assigns)
    case Ident(name) =>
      exists k: nat, i: nat ::
        && BoundAt(assigns, k, i, name, e.pos) && Denotes(BoundTo(assigns, k, i, name, e.pos), t, assigns)
        && forall m: nat, j: nat :: BoundAt(assigns, m, j, name, e.pos) && (m > k || (m == k && j > i)) ==>
             forall u :: u != "" ==> !Denotes(BoundTo(assigns, m, j, name, e.pos), u, assigns)
    case _ => false
  }

  lemma {:induction false} TrimLeftStops(s: string) returns (i: nat)
    ensures i <= |s| && TrimLeft(s) == s[i..]
    ensures forall k :: 0 <= k < i ==> s[k] == '`' || s[k] == '"'
    ensures i < |s| ==> s[i] != '`' && s[i] != '"'
  {
    i := 0;
    if s != [] && IsQuote(s[0]) {
      i := TrimLeftStops(s[1..]);
      assert s[1..][i..] == s[i + 1..];
      i := i + 1;
    }
  }

  lemma {:induction false} TrimRightStops(s: string) returns (j: nat)
    ensures j <= |s| && TrimRight(s) == s[..j]
    ensures forall k :: j <= k < |s| ==> s[k] == '`' || s[k] == '"'
    ensures j > 0 ==> s[j - 1] != '`' && s[j - 1] != '"'
  {
    j := |s|;
    if s != [] && IsQuote(s[|s| - 1]) {
      j := TrimRightStops(s[..|s| - 1]);
      assert s[..|s| - 1][..j] == s[..j];
    }
  }

  lemma InsideQuotes(text: string, i: int, j: int, k: int, l: int)
    requires Between(text, i, j) && Between(text, k, l) && i < j
    ensures k <= i && j <= l
  {
  }

  lemma BetweenUnique(text: string, i: int, j: int, k: int, l: int)
    requires Between(text, i, j) && Between(text, k, l)
    ensures text[i..j] == text[k..l]
  {
    if i < j { InsideQuotes(text, i, j, k, l); }
    if k < l { InsideQuotes(text, k, l, i, j); }
    hide Between;
  }

  lemma TrimIsUnquotes(text: string, t: string)
    ensures Trim(text) == t <==> Unquotes(text, t)
  {
    var i := TrimLeftStops(text);
    var j := TrimRightStops(text[i..]);
    hide TrimLeft, TrimRight;
    assert text[i..][..j] == text[i..i + j];
    assert Between(text, i, i + j);
    if Unquotes(text, t) {
      var k, l :| Between(text, k, l) && t == text[k..l];
      BetweenUnique(text, i, i + j, k, l);
    }
  }

  /** In particular a text without quotes at its ends is what its quoted form resolves to. */
  lemma QuotedLiteral(e: Node, t: string, quote: char, assigns: seq<Node>)
    requires WellFormed(e) && Known(assigns)
    requires e.kind == BasicLit(true, [quote] + t + [quote]) && (quote == '`' || quote == '"')
    requires t != "" ==> t[0] != '`' && t[0] != '"' && t[|t| - 1] != '`' && t[|t| - 1] != '"'
    ensures Resolve(e, assigns) == t
  {
    var text := [quote] + t + [quote];
    assert text[1..|t| + 1] == t;
    assert Between(text, 1, |t| + 1);
    TrimIsUnquotes(text, t);
  }

  // ----- The last right side that resolves -----

  ghost function ValueAt(assigns: seq<Node>, k: nat, i: nat, name: string, pos: nat): string
    requires Known(assigns)
  {
    if BoundAt(assigns, k, i, name, pos) then Resolve(BoundTo(assigns, k, i, name, pos), assigns) else ""
  }

  ghost predicate LastAt(assigns: seq<Node>, name: string, pos: nat, n: nat, m: nat, f: string, k: nat, i: nat)
    requires Known(assigns)
  {
    && (k < n || (k == n && i < m)) && ValueAt(assigns, k, i, name, pos) == f
    && forall l: nat, j: nat ::
         (k < l < n || (k < l == n && j < m) || (l == k < n && j > i) || (l == k == n && i < j < m))
         ==> ValueAt(assigns, l, j, name, pos) == ""
  }

  /** f is the last non-empty value before left side m of assignment n. */
  ghost predicate IsLast(assigns: seq<Node>, name: string, pos: nat, n: nat, m: nat, f: string)
    requires Known(assigns)
  {
    if f == "" then forall k: nat, i: nat :: k < n || (k == n && i < m) ==> ValueAt(assigns, k, i, name, pos) == ""
    else exists k: nat, i: nat :: LastAt(assigns, name, pos, n, m, f, k, i)
  }

  lemma LastStep(assigns: seq<Node>, name: string, pos: nat, n: nat, m: nat, f: string)
    requires Known(assigns) && IsLast(assigns, name, pos, n, m, f)
    ensures IsLast(assigns, name, pos, n, m + 1, Overwrite(f, ValueAt(assigns, n, m, name, pos)))
  {
    hide ValueAt;
    if ValueAt(assigns, n, m, name, pos) != "" {
      assert LastAt(assigns, name, pos, n, m + 1, ValueAt(assigns, n, m, name, pos), n, m);
    } else if f != "" {
      var k: nat, i: nat :| LastAt(assigns, name, pos, n, m, f, k, i);
      assert LastAt(assigns, name, pos, n, m + 1, f, k, i);
    }
  }

  lemma LastNext(assigns: seq<Node>, name: string, pos: nat, n: nat, m: nat, f: string)
    requires Known(assigns) && IsLast(assigns, name, pos, n, m, f)
    requires forall i: nat :: i >= m ==> ValueAt(assigns, n, i, name, pos) == ""
    ensures IsLast(assigns, name, pos, n + 1, 0, f)
  {
    hide ValueAt;
    if f != "" {
      var k: nat, i: nat :| LastAt(assigns, name, pos, n, m, f, k, i);
      assert LastAt(assigns, name, pos, n + 1, 0, f, k, i);
    }
  }

  lemma ValueIs(e: Node, name: string, assigns: seq<Node>, k: nat, i: nat)
    requires Known(assigns) && k < |assigns| && assigns[k].kind.Assign? && assigns[k].kind.lhs <= |assigns[k].children|
    requires assigns[k].end <= e.pos
    ensures Binds(assigns[k], i, name) ==> WellFormed(Rights(assigns[k])[i])
    ensures ValueAt(assigns, k, i, name, e.pos)
         == if Binds(assigns[k], i, name) then Resolve(Rights(assigns[k])[i], assigns) else ""
  {
    assert AssignNode(assigns[k]);
    if Binds(assigns[k], i, name) { RightInside(assigns[k], Rights(assigns[k])[i]); }
    hide Resolve;
  }

  lemma {:induction false} LastRights(e: Node, name: string, assigns: seq<Node>, k: nat, i: nat, f: string)
    requires WellFormed(e) && e.kind == Ident(name) && Known(assigns)
    requires k < |assigns| && AssignNode(assigns[k]) && assigns[k].end <= e.pos && i <= |Lefts(assigns[k])|
    requires IsLast(assigns, name, e.pos, k, 0, f)
    ensures IsLast(assigns, name, e.pos, k, i, Overwrite(f, RightsFound(assigns[k], name, i, e, assigns)))
  {
    hide *;
    if i == 0 {
      NoRights(e, name, assigns, k, f);
    } else {
      AssignShape(assigns[k]);
      LastRights(e, name, assigns, k, i - 1, f);
      LastStep(assigns, name, e.pos, k, i - 1, Overwrite(f, RightsFound(assigns[k], name, i - 1, e, assigns)));
      ValueIs(e, name, assigns, k, i - 1);
      VisitStep(assigns[k], name, i - 1, e, assigns, f);
      OverwriteNothing(Overwrite(f, RightsFound(assigns[k], name, i - 1, e, assigns)));
    }
  }

  lemma NoRights(e: Node, name: string, assigns: seq<Node>, k: nat, f: string)
    requires WellFormed(e) && e.kind == Ident(name) && Known(assigns)
    requires k < |assigns| && AssignNode(assigns[k]) && assigns[k].end <= e.pos
    ensures Overwrite(f, RightsFound(assigns[k], name, 0, e, assigns)) == f
  {
    hide Resolve;
  }

  lemma AssignShape(a: Node)
    requires AssignNode(a)
    ensures a.kind.Assign? && a.kind.lhs <= |a.children|
  {
  }

  lemma OverwriteNothing(f: string)
    ensures Overwrite(f, "") == f
  {
  }

  lemma {:induction false} LastFound(e: Node, name: string, assigns: seq<Node>, n: nat)
    requires WellFormed(e) && e.kind == Ident(name) && Known(assigns) && n <= |assigns|
    ensures Known(assigns[..n])
    ensures IsLast(assigns, name, e.pos, n, 0, FoundAfter("", assigns[..n], name, e, assigns))
  {
    hide *;
    KnownPrefix(assigns, n);
    if n == 0 {
      LastOfNone(e, name, assigns);
    } else {
      LastKnown(assigns, n);
      LastFound(e, name, assigns, n - 1);
      if assigns[n - 1].end <= e.pos {
        LastOfEnded(e, name, assigns, n - 1);
      } else {
        LastOfOpen(e, name, assigns, n - 1);
      }
    }
  }

  lemma LastOfNone(e: Node, name: string, assigns: seq<Node>)
    requires WellFormed(e) && e.kind == Ident(name) && Known(assigns) && Known(assigns[..0])
    ensures IsLast(assigns, name, e.pos, 0, 0, FoundAfter("", assigns[..0], name, e, assigns))
  {
    hide ValueAt;
    assert Candidates(assigns[..0], name, e.pos) == [];
  }

  lemma LastOfEnded(e: Node, name: string, assigns: seq<Node>, k: nat)
    requires WellFormed(e) && e.kind == Ident(name) && Known(assigns) && k < |assigns|
    requires Known(assigns[..k]) && Known(assigns[..k + 1])
    requires AssignNode(assigns[k]) && assigns[k].kind.Assign? && assigns[k].kind.lhs <= |assigns[k].children|
    requires assigns[k].end <= e.pos
    requires IsLast(assigns, name, e.pos, k, 0, FoundAfter("", assigns[..k], name, e, assigns))
    ensures IsLast(assigns, name, e.pos, k + 1, 0, FoundAfter("", assigns[..k + 1], name, e, assigns))
  {
    hide *;
    var lefts := |Lefts(assigns[k])|;
    LastRights(e, name, assigns, k, lefts, FoundAfter("", assigns[..k], name, e, assigns));
    LastAssignment(e, name, assigns, k + 1);
    NoFurtherLeft(e, name, assigns, k);
    LastNext(assigns, name, e.pos, k, lefts, FoundAfter("", assigns[..k + 1], name, e, assigns));
  }

  lemma NoFurtherLeft(e: Node, name: string, assigns: seq<Node>, k: nat)
    requires Known(assigns) && k < |assigns| && assigns[k].kind.Assign? && assigns[k].kind.lhs <= |assigns[k].children|
    ensures forall i: nat :: i >= |Lefts(assigns[k])| ==> ValueAt(assigns, k, i, name, e.pos) == ""
  {
  }

  lemma LastOfOpen(e: Node, name: string, assigns: seq<Node>, k: nat)
    requires WellFormed(e) && e.kind == Ident(name) && Known(assigns) && k < |assigns|
    requires Known(assigns[..k]) && Known(assigns[..k + 1])
    requires assigns[k].end > e.pos
    requires IsLast(assigns, name, e.pos, k, 0, FoundAfter("", assigns[..k], name, e, assigns))
    ensures IsLast(assigns, name, e.pos, k + 1, 0, FoundAfter("", assigns[..k + 1], name, e, assigns))
  {
    LastNext(assigns, name, e.pos, k, 0, FoundAfter("", assigns[..k], name, e, assigns));
    assert assigns[..k + 1][..k] == assigns[..k];
    assert Candidates(assigns[..k + 1], name, e.pos) == Candidates(assigns[..k], name, e.pos);
    hide IsLast, LastResolved;
  }

  /** A non-empty text is the answer for an expression exactly when the expression denotes it. */
  lemma {:induction false} ResolvesIffDenotes(e: Node, t: string, assigns: seq<Node>)
    requires WellFormed(e) && Known(assigns) && t != ""
    ensures Resolve(e, assigns) == t <==> Denotes(e, t, assigns)
    decreases e.end, 0
  {
    match e.kind {
      case BasicLit(_, text) => TrimIsUnquotes(text, t);
      case Call => if |e.children| > 1 { ResolvesIffDenotes(e.children[1], t, assigns); }
      case Binary(_) => ResolvesIffDenotes(e.children[0], t, assigns);
      case Paren => ResolvesIffDenotes(e.children[0], t, assigns);
      case Ident(name) =>
        ValuesDenote(e, name, assigns);
        IdentDenotes(e, name, t, assigns);
      case _ =>
    }
  }

  /** What is so for the right sides a name can have. */
  ghost predicate RightsDenote(e: Node, name: string, assigns: seq<Node>)
    requires Known(assigns)
  {
    forall k: nat, i: nat, u :: BoundAt(assigns, k, i, name, e.pos) && u != "" ==>
      (ValueAt(assigns, k, i, name, e.pos) == u <==> Denotes(BoundTo(assigns, k, i, name, e.pos), u, assigns))
  }

  lemma {:induction false} ValuesDenote(e: Node, name: string, assigns: seq<Node>)
    requires WellFormed(e) && e.kind == Ident(name) && Known(assigns)
    ensures RightsDenote(e, name, assigns)
    decreases e.end, 0, 0
  {
    forall k: nat, i: nat, u | BoundAt(assigns, k, i, name, e.pos) && u != ""
      ensures ValueAt(assigns, k, i, name, e.pos) == u <==> Denotes(BoundTo(assigns, k, i, name, e.pos), u, assigns)
    {
      ResolvesIffDenotes(BoundTo(assigns, k, i, name, e.pos), u, assigns);
    }
  }

  lemma IdentDenotes(e: Node, name: string, t: string, assigns: seq<Node>)
    requires WellFormed(e) && e.kind == Ident(name) && Known(assigns) && t != ""
    requires RightsDenote(e, name, assigns)
    ensures Resolve(e, assigns) == t <==> Denotes(e, t, assigns)
  {
    LastFound(e, name, assigns, |assigns|);
    assert assigns[..|assigns|] == assigns;
    assert Resolve(e, assigns) == FoundAfter("", assigns, name, e, assigns);
    hide *;
    LastIsDenoted(e, name, t, assigns, Resolve(e, assigns));
  }

  lemma LastUnique(assigns: seq<Node>, name: string, pos: nat, f: string, t: string, k: nat, i: nat)
    requires Known(assigns) && IsLast(assigns, name, pos, |assigns|, 0, f)
    requires t != "" && LastAt(assigns, name, pos, |assigns|, 0, t, k, i)
    ensures f == t
  {
    hide ValueAt;
  }

  /** A right side that denotes t, with none after it that denotes anything. */
  ghost predicate DenotedAt(e: Node, name: string, t: string, assigns: seq<Node>, k: nat, i: nat)
    requires Known(assigns) && WellFormed(e)
  {
    && BoundAt(assigns, k, i, name, e.pos) && Denotes(BoundTo(assigns, k, i, name, e.pos), t, assigns)
    && forall m: nat, j: nat :: BoundAt(assigns, m, j, name, e.pos) && (m > k || (m == k && j > i)) ==>
         forall u :: u != "" ==> !Denotes(BoundTo(assigns, m, j, name, e.pos), u, assigns)
  }

  lemma DenotedIffLast(e: Node, name: string, t: string, assigns: seq<Node>, k: nat, i: nat)
    requires WellFormed(e) && Known(assigns) && t != "" && RightsDenote(e, name, assigns)
    ensures DenotedAt(e, name, t, assigns, k, i) <==> LastAt(assigns, name, e.pos, |assigns|, 0, t, k, i)
  {
    var n := |assigns|;
    hide Denotes, Resolve, WellFormed, Known;
    forall m: nat, j: nat | BoundAt(assigns, m, j, name, e.pos)
      ensures m < n
      ensures ValueAt(assigns, m, j, name, e.pos) == ""
         <==> forall u :: u != "" ==> !Denotes(BoundTo(assigns, m, j, name, e.pos), u, assigns)
    {
      var v := ValueAt(assigns, m, j, name, e.pos);
      assert v != "" ==> Denotes(BoundTo(assigns, m, j, name, e.pos), v, assigns);
    }
  }

  lemma LastIsDenoted(e: Node, name: string, t: string, assigns: seq<Node>, f: string)
    requires WellFormed(e) && e.kind == Ident(name) && Known(assigns) && t != ""
    requires RightsDenote(e, name, assigns) && IsLast(assigns, name, e.pos, |assigns|, 0, f)
    ensures f == t <==> Denotes(e, t, assigns)
  {
    forall k: nat, i: nat
      ensures DenotedAt(e, name, t, assigns, k, i) <==> LastAt(assigns, name, e.pos, |assigns|, 0, t, k, i)
    {
      DenotedIffLast(e, name, t, assigns, k, i);
    }
    assert Denotes(e, t, assigns) <==> exists k: nat, i: nat :: DenotedAt(e, name, t, assigns, k, i) by {
      IdentCase(e, name, t, assigns);
    }
    hide Denotes, DenotedAt, LastAt, WellFormed, Known, RightsDenote;
    if k: nat, i: nat :| LastAt(assigns, name, e.pos, |assigns|, 0, t, k, i) {
      LastUnique(assigns, name, e.pos, f, t, k, i);
    }
  }

  lemma IdentCase(e: Node, name: string, t: string, assigns: seq<Node>)
    requires WellFormed(e) && e.kind == Ident(name) && Known(assigns)
    ensures Denotes(e, t, assigns) <==> exists k: nat, i: nat :: DenotedAt(e, name, t, assigns, k, i)
  {
    if Denotes(e, t, assigns) {
      var k: nat, i: nat :|
        && BoundAt(assigns, k, i, name, e.pos) && Denotes(BoundTo(assigns, k, i, name, e.pos), t, assigns)
        && forall m: nat, j: nat :: BoundAt(assigns, m, j, name, e.pos) && (m > k || (m == k && j > i)) ==>
             forall u :: u != "" ==> !Denotes(BoundTo(assigns, m, j, name, e.pos), u, assigns);
      assert DenotedAt(e, name, t, assigns, k, i);
    }
  }

  // ----- The assignments of a body -----

  ghost predicate Within(a: Node, n: Node) {
    a == n || exists c <- n.children :: Within(a, c)
  }

  /** The assignments gone through are all those anywhere in the tree, ... */
  lemma {:induction false} AssignsAreAll(n: Node, a: Node)
    ensures a in Assigns(n) <==> a.kind.Assign? && Within(a, n)
    decreases n, 0
  {
    AssignsInAreAll(n, |n.children|, a);
    assert n.children[..|n.children|] == n.children;
    hide Assigns, AssignsIn;
    AssignsUnfold(n, a);
  }

  lemma AssignsUnfold(n: Node, a: Node)
    ensures a in Assigns(n) <==> (a == n && n.kind.Assign?) || a in AssignsIn(n.children)
  {
  }

  lemma {:induction false} AssignsInAreAll(n: Node, k: nat, a: Node)
    requires k <= |n.children|
    ensures a in AssignsIn(n.children[..k]) <==> a.kind.Assign? && exists c <- n.children[..k] :: Within(a, c)
    decreases n.children, k
  {
    if k > 0 {
      assert n.children[..k] == n.children[..k - 1] + [n.children[k - 1]];
      AssignsInSnoc(n, k - 1);
      hide Assigns, AssignsIn, Within;
      AssignsInAreAll(n, k - 1, a);
      assert n.children[k - 1] in n.children;
      AssignsAreAll(n.children[k - 1], a);
    }
  }

  ghost predicate ByPosition(assigns: seq<Node>) {
    forall i, j :: 0 <= i < j < |assigns| ==> assigns[i].pos <= assigns[j].pos
  }

  lemma ByPositionAppend(a: seq<Node>, b: seq<Node>, at: nat)
    requires ByPosition(a) && ByPosition(b)
    requires (forall x <- a :: x.pos <= at) && (forall x <- b :: at <= x.pos)
    ensures ByPosition(a + b)
  {
  }

  /** ... in the order in which they start. */
  lemma {:induction false} AssignsByPosition(n: Node)
    requires WellFormed(n)
    ensures ByPosition(Assigns(n))
    decreases n, 0
  {
    var own: seq<Node> := if n.kind.Assign? then [n] else [];
    AssignsInByPosition(n, |n.children|);
    AssignsInWellFormed(n, |n.children|);
    assert n.children[..|n.children|] == n.children;
    ByPositionAppend(own, AssignsIn(n.children), n.pos);
  }

  lemma JoinByPosition(a: seq<Node>, b: seq<Node>, c: Node)
    requires ByPosition(a) && ByPosition(b) && c.pos <= c.end
    requires forall x <- a :: AssignNode(x) && x.end <= c.pos
    requires forall x <- b :: AssignNode(x) && c.pos <= x.pos && x.end <= c.end
    ensures ByPosition(a + b)
    ensures forall x <- a + b :: AssignNode(x) && x.end <= c.end
  {
    forall x <- a
      ensures x.pos <= c.pos
    {
      assert AssignNode(x);
    }
    hide AssignNode;
    ByPositionAppend(a, b, c.pos);
  }

  lemma {:induction false} AssignsInByPosition(n: Node, k: nat)
    requires WellFormed(n) && k <= |n.children|
    ensures ByPosition(AssignsIn(n.children[..k]))
    ensures forall a <- AssignsIn(n.children[..k]) :: AssignNode(a) && k > 0 && a.end <= n.children[k - 1].end
    decreases n.children, k
  {
    if k > 0 {
      var c := n.children[k - 1];
      assert c in n.children && WellFormed(c) && c.pos <= c.end;
      assert k > 1 ==> n.children[k - 2].end <= c.pos;
      hide WellFormed, AssignNode, Assigns, AssignsIn, ByPosition;
      AssignsInSnoc(n, k - 1);
      AssignsInByPosition(n, k - 1);
      AssignsByPosition(c);
      AssignsWellFormed(c);
      JoinByPosition(AssignsIn(n.children[..k - 1]), Assigns(c), c);
    }
  }
}
