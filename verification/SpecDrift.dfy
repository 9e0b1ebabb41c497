/** The endpoint matcher of the spec drift script: a normalized SDK path against the paths of an
    OpenAPI document, an exact hit first, then aligned parameters, then loose ones. */
module SpecDrift {
  import opened Wrappers

  /** A path of the document with the verbs it offers. */
  datatype Entry = Entry(path: string, verbs: set<string>)

  /** A dictionary in insertion order. */
  type Index = seq<Entry>

  datatype Verdict = Offered | OtherVerb | Missing

  datatype Match = Match(verdict: Verdict, paths: seq<string>)

  ghost predicate Distinct(index: Index) {
    forall i, j :: 0 <= i < j < |index| ==> index[i].path != index[j].path
  }

  // ----- Paths and segments -----

  function Split(s: string): (parts: seq<string>)
    ensures parts != []
  {
    if s == "" then [""]
    else
      var rest := Split(s[1..]);
      if s[0] == '/' then [""] + rest else [[s[0]] + rest[0]] + rest[1..]
  }

  /** The text after the first closing brace, if there is one. */
  function AfterBrace(s: string): (rest: Option<string>)
    ensures rest.Some? ==> |rest.value| < |s|
    ensures rest.None? ==> '}' !in s
  {
    if s == "" then None else if s[0] == '}' then Some(s[1..]) else AfterBrace(s[1..])
  }

  /** Every parameter of a spec path becomes {p}, whatever stands between its braces. */
  function Normalize(s: string): string
    decreases |s|
  {
    if s == "" then ""
    else if s[0] == '{' && AfterBrace(s).Some? then "{p}" + Normalize(AfterBrace(s).value)
    else [s[0]] + Normalize(s[1..])
  }

  predicate SegmentsMatch(a: string, b: string) {
    if a == b then true
    else if a == "{p}" || b == "{p}" then a == "{d}" || b == "{d}" || a == "{s}" || b == "{s}"
    else a == "{s}" || b == "{s}"
  }

  predicate AllMatch(a: seq<string>, b: seq<string>)
    requires |a| == |b|
  {
    forall i :: 0 <= i < |a| ==> SegmentsMatch(a[i], b[i])
  }

  predicate AllAligned(a: seq<string>, b: seq<string>)
    requires |a| == |b|
  {
    forall i :: 0 <= i < |a| ==> a[i] == b[i] || a[i] == "{p}" || b[i] == "{p}"
  }

  // ----- The matcher -----

  function Find(index: Index, path: string): Option<set<string>> {
    if index == [] then None
    else if index[|index| - 1].path == path then Some(index[|index| - 1].verbs)
    else Find(index[..|index| - 1], path)
  }

  predicate Offers(index: Index, path: string, verb: string) {
    Find(index, path).Some? && verb in Find(index, path).value
  }

  predicate Hit(sdk: string, path: string, aligned: bool) {
    var a, b := Split(sdk), Split(Normalize(path));
    |a| == |b| && AllMatch(a, b) && AllAligned(a, b) == aligned
  }

  function Hits(index: Index, sdk: string, aligned: bool): seq<string> {
    if index == [] then []
    else
      var path := index[|index| - 1].path;
      Hits(index[..|index| - 1], sdk, aligned) + (if Hit(sdk, path, aligned) then [path] else [])
  }

  function Structural(index: Index, sdk: string): seq<string> {
    if Hits(index, sdk, true) != [] then Hits(index, sdk, true) else Hits(index, sdk, false)
  }

  function Matched(index: Index, verb: string, sdk: string): Match {
    var structural := Structural(index, sdk);
    if Find(index, sdk).Some? then Match(if Offers(index, sdk, verb) then Offered else OtherVerb, [sdk])
    else if structural == [] then Match(Missing, [])
    else Match(if exists path <- structural :: Offers(index, path, verb) then Offered else OtherVerb, structural)
  }

  method MatchEndpoint(index: Index, verb: string, sdk: string) returns (m: Match)
    ensures m == Matched(index, verb, sdk)
  {
    var exact := Find(index, sdk);
    if exact.Some? {
      return Match(if verb in exact.value then Offered else OtherVerb, [sdk]);
    }
    var aligned: seq<string>, loose: seq<string> := [], [];
    for i := 0 to |index|
      invariant aligned == Hits(index[..i], sdk, true)
      invariant loose == Hits(index[..i], sdk, false)
    {
      assert index[..i + 1][..i] == index[..i];
      var a, b := Split(sdk), Split(Normalize(index[i].path));
      if |a| == |b| && AllMatch(a, b) {
        if AllAligned(a, b) {
          aligned := aligned + [index[i].path];
        } else {
          loose := loose + [index[i].path];
        }
      }
    }
    assert index[..|index|] == index;
    var structural := if aligned != [] then aligned else loose;
    if structural == [] { return Match(Missing, []); }
    var offered := false;
    for i := 0 to |structural|
      invariant offered <==> exists k :: 0 <= k < i && Offers(index, structural[k], verb)
    {
      if Offers(index, structural[i], verb) { offered := true; }
    }
    return Match(if offered then Offered else OtherVerb, structural);
  }

  // ----- What a match means -----

  /** One SDK segment against one of a spec path: {d} stands for a parameter only, {s} for anything. */
  predicate Fits(a: string, b: string) {
    a == b || a == "{s}" || (a == "{d}" && b == "{p}")
  }

  predicate PathFits(sdk: string, path: string) {
    var a, b := Split(sdk), Split(Normalize(path));
    |a| == |b| && forall i :: 0 <= i < |a| ==> Fits(a[i], b[i])
  }

  /** No {s} stands for a literal. */
  predicate PathAligns(sdk: string, path: string) {
    var a, b := Split(sdk), Split(Normalize(path));
    PathFits(sdk, path) && forall i :: 0 <= i < |a| ==> a[i] == b[i] || b[i] == "{p}"
  }

  /** A brace closed two characters on holds a p. */
  ghost predicate OnlyP(s: string) {
    forall k :: 0 <= k < |s| - 2 && s[k] == '{' && s[k + 2] == '}' ==> s[k + 1] == 'p'
  }

  lemma {:induction false} NoBraceAdded(s: string)
    requires '}' !in s
    ensures '}' !in Normalize(s)
    decreases |s|
  {
    if s != "" {
      if AfterBrace(s).Some? { BraceFound(s); }
      NoBraceAdded(s[1..]);
    }
  }

  lemma {:induction false} BraceFound(s: string)
    requires AfterBrace(s).Some?
    ensures '}' in s
  {
    if s[0] != '}' { BraceFound(s[1..]); }
  }

  lemma {:induction false} NormalizedOnlyP(s: string)
    ensures OnlyP(Normalize(s))
    decreases |s|
  {
    if s != "" {
      if s[0] == '{' && AfterBrace(s).Some? {
        NormalizedOnlyP(AfterBrace(s).value);
        OnlyPBehind(Normalize(AfterBrace(s).value));
      } else {
        NormalizedOnlyP(s[1..]);
        if s[0] == '{' { NoBraceAdded(s[1..]); }
        OnlyPOneMore(s[0], Normalize(s[1..]));
      }
    }
  }

  lemma OnlyPBehind(t: string)
    requires OnlyP(t)
    ensures OnlyP("{p}" + t)
  {
    var u := "{p}" + t;
    forall k | 0 <= k < |u| - 2 && u[k] == '{' && u[k + 2] == '}'
      ensures u[k + 1] == 'p'
    {
      if k >= 3 { assert u[k] == t[k - 3] && u[k + 1] == t[k - 2] && u[k + 2] == t[k - 1]; }
    }
  }

  lemma OnlyPOneMore(c: char, t: string)
    requires OnlyP(t) && (c == '{' ==> '}' !in t)
    ensures OnlyP([c] + t)
  {
    var u := [c] + t;
    forall k | 0 <= k < |u| - 2 && u[k] == '{' && u[k + 2] == '}'
      ensures u[k + 1] == 'p'
    {
      assert u[k + 2] == t[k + 1] && u[k + 1] == t[k];
      if k >= 1 { assert u[k] == t[k - 1]; }
    }
  }

  lemma {:induction false} SegmentsOnlyP(s: string)
    requires OnlyP(s)
    ensures forall x <- Split(s) :: OnlyP(x)
    ensures Split(s)[0] <= s
  {
    if s != "" {
      SegmentsOnlyP(s[1..]);
      assert Split(s)[0] <= s;
    }
  }

  lemma MarkersAreNotOnlyP()
    ensures !OnlyP("{d}") && !OnlyP("{s}")
  {
    var d, s := "{d}", "{s}";
    assert d[0] == '{' && d[2] == '}' && d[1] != 'p';
    assert s[0] == '{' && s[2] == '}' && s[1] != 'p';
  }

  /** So no segment of a spec path is one of the SDK's own markers. */
  lemma SpecSegments(path: string)
    ensures "{d}" !in Split(Normalize(path)) && "{s}" !in Split(Normalize(path))
  {
    NormalizedOnlyP(path);
    SegmentsOnlyP(Normalize(path));
    MarkersAreNotOnlyP();
    hide OnlyP, Normalize, Split;
  }

  /** Against a spec segment the matching test is Fits. */
  lemma SegmentsMatchIffFits(a: string, b: string)
    requires b != "{d}" && b != "{s}"
    ensures SegmentsMatch(a, b) <==> Fits(a, b)
    ensures Fits(a, b) && a == "{p}" ==> b == "{p}"
  {
  }

  /** The two lists of the loop are the aligned paths and the other fitting ones. */
  lemma HitIff(sdk: string, path: string)
    ensures Hit(sdk, path, true) <==> PathAligns(sdk, path)
    ensures Hit(sdk, path, false) <==> PathFits(sdk, path) && !PathAligns(sdk, path)
  {
    SpecSegments(path);
    hide Split, Normalize, SegmentsMatch, Fits;
    var a, b := Split(sdk), Split(Normalize(path));
    if |a| == |b| {
      forall i | 0 <= i < |a|
        ensures SegmentsMatch(a[i], b[i]) <==> Fits(a[i], b[i])
        ensures Fits(a[i], b[i]) && a[i] == "{p}" ==> b[i] == "{p}"
      {
        assert b[i] in b;
        SegmentsMatchIffFits(a[i], b[i]);
      }
    }
  }

  ghost predicate Listed(index: Index, path: string) { exists e <- index :: e.path == path }

  lemma LastEntry(index: Index)
    requires index != []
    ensures index[|index| - 1] in index
    ensures forall e :: e in index <==> e in index[..|index| - 1] || e == index[|index| - 1]
  {
    assert index == index[..|index| - 1] + [index[|index| - 1]];
  }

  lemma {:induction false} HitsAre(index: Index, sdk: string, aligned: bool, p: string)
    ensures p in Hits(index, sdk, aligned) <==> Hit(sdk, p, aligned) && Listed(index, p)
  {
    hide Hit;
    if index != [] {
      LastEntry(index);
      HitsAre(index[..|index| - 1], sdk, aligned, p);
    }
  }

  lemma {:induction false} FindIs(index: Index, path: string)
    requires Distinct(index)
    ensures Find(index, path).Some? <==> exists e <- index :: e.path == path
    ensures forall e <- index :: e.path == path ==> Find(index, path) == Some(e.verbs)
  {
    if index != [] {
      var init, last := index[..|index| - 1], index[|index| - 1];
      FindIs(init, path);
      assert index == init + [last];
    }
  }

  ghost predicate SomeAligned(index: Index, sdk: string) { exists e <- index :: PathAligns(sdk, e.path) }

  /** The entries that decide: the path itself if the document lists it, else the aligned ones, else
      all that fit. */
  ghost predicate Decides(index: Index, sdk: string, e: Entry) {
    if Listed(index, sdk) then e.path == sdk
    else if SomeAligned(index, sdk) then PathAligns(sdk, e.path)
    else PathFits(sdk, e.path)
  }

  lemma StructuralIs(index: Index, sdk: string)
    ensures forall p :: p in Structural(index, sdk) <==>
              Listed(index, p) && if SomeAligned(index, sdk) then PathAligns(sdk, p) else PathFits(sdk, p)
  {
    hide Hit, Hits, PathAligns, PathFits;
    forall p
      ensures p in Hits(index, sdk, true) <==> Listed(index, p) && PathAligns(sdk, p)
      ensures p in Hits(index, sdk, false) <==> Listed(index, p) && PathFits(sdk, p) && !PathAligns(sdk, p)
    {
      HitIff(sdk, p);
      HitsAre(index, sdk, true, p);
      HitsAre(index, sdk, false, p);
    }
    var aligned := Hits(index, sdk, true);
    if aligned != [] {
      assert aligned[0] in aligned;
    } else {
      forall e <- index
        ensures !PathAligns(sdk, e.path)
      {
        assert e.path !in aligned;
      }
    }
  }

  /** The matched paths are exactly the deciding ones; the verdict is Missing when there is none,
      Offered when one of them offers the verb, and OtherVerb else. */
  lemma VerdictIs(index: Index, verb: string, sdk: string)
    requires Distinct(index)
    ensures var m := Matched(index, verb, sdk);
            && (forall p :: p in m.paths <==> exists e <- index :: e.path == p && Decides(index, sdk, e))
            && (m.verdict == Missing <==> forall e <- index :: !Decides(index, sdk, e))
            && (m.verdict == Offered <==> exists e <- index :: Decides(index, sdk, e) && verb in e.verbs)
  {
    StructuralIs(index, sdk);
    hide PathAligns, PathFits, Find, Structural, SomeAligned;
    var structural := Structural(index, sdk);
    assert structural == [] || structural[0] in structural;
    forall p
      ensures Find(index, p).Some? <==> exists e <- index :: e.path == p
      ensures forall e <- index :: e.path == p ==> Find(index, p) == Some(e.verbs)
    {
      FindIs(index, p);
    }
  }

  /** A match is sound: apart from an exact hit, every path it reports has as many segments as the
      SDK path, each fitting, and a numeric parameter meets a spec parameter only. */
  lemma MatchIsSound(index: Index, verb: string, sdk: string, path: string, i: nat)
    requires Distinct(index) && path in Matched(index, verb, sdk).paths && path != sdk
    ensures PathFits(sdk, path) && |Split(sdk)| == |Split(Normalize(path))|
    ensures i < |Split(sdk)| && Split(sdk)[i] == "{d}" ==> Split(Normalize(path))[i] == "{p}"
  {
    VerdictIs(index, verb, sdk);
    SpecSegments(path);
    hide Matched, Split, Normalize, SomeAligned;
    var e :| e in index && e.path == path && Decides(index, sdk, e);
    var b := Split(Normalize(path));
    if i < |b| { assert b[i] in b; }
  }

  /** The same paths, each with at least the verbs it had. */
  ghost predicate MoreVerbs(index: Index, more: Index) {
    && |index| == |more|
    && forall i :: 0 <= i < |index| ==> index[i].path == more[i].path && index[i].verbs <= more[i].verbs
  }

  /** Verbs added to listed paths never take an Offered verdict away and never change the paths. */
  lemma VerbsAdded(index: Index, more: Index, verb: string, sdk: string)
    requires Distinct(index) && MoreVerbs(index, more)
    ensures Matched(index, verb, sdk).verdict == Offered ==> Matched(more, verb, sdk).verdict == Offered
    ensures Matched(index, verb, sdk).paths == Matched(more, verb, sdk).paths
  {
    SamePaths(index, more, sdk);
    hide Hits, Hit;
    forall p
      ensures Find(index, p).Some? <==> Find(more, p).Some?
      ensures Offers(index, p, verb) ==> Offers(more, p, verb)
    {
      SameFind(index, more, p);
    }
    hide Find;
  }

  lemma {:induction false} SamePaths(index: Index, more: Index, sdk: string)
    requires MoreVerbs(index, more)
    ensures Hits(index, sdk, true) == Hits(more, sdk, true) && Hits(index, sdk, false) == Hits(more, sdk, false)
  {
    hide Hit;
    if index != [] { SamePaths(index[..|index| - 1], more[..|more| - 1], sdk); }
  }

  lemma {:induction false} SameFind(index: Index, more: Index, path: string)
    requires MoreVerbs(index, more)
    ensures Find(index, path).Some? <==> Find(more, path).Some?
    ensures Find(index, path).Some? ==> Find(index, path).value <= Find(more, path).value
  {
    if index != [] { SameFind(index[..|index| - 1], more[..|more| - 1], path); }
  }

  /** A path added to the document takes an Offered verdict away exactly when it lacks the verb and is
      either the SDK path itself or the first to align with it. */
  lemma PathAdded(index: Index, e: Entry, verb: string, sdk: string)
    requires Distinct(index + [e]) && Distinct(index) && Matched(index, verb, sdk).verdict == Offered
    ensures Matched(index + [e], verb, sdk).verdict != Offered <==>
              && verb !in e.verbs
              && (e.path == sdk || (!Listed(index, sdk) && !SomeAligned(index, sdk) && PathAligns(sdk, e.path)))
  {
    VerdictIs(index, verb, sdk);
    VerdictIs(index + [e], verb, sdk);
    hide Matched, PathAligns, PathFits;
    Extended(index, e, sdk);
    var more := index + [e];
    var d :| d in index && Decides(index, sdk, d) && verb in d.verbs;
    assert d in more && e in more;
    if d.path == sdk || e.path == sdk { OneEntry(index, e, d); }
  }

  lemma Extended(index: Index, e: Entry, sdk: string)
    ensures Listed(index + [e], sdk) <==> Listed(index, sdk) || e.path == sdk
    ensures SomeAligned(index + [e], sdk) <==> SomeAligned(index, sdk) || PathAligns(sdk, e.path)
    ensures forall d :: d in index + [e] <==> d in index || d == e
  {
    hide PathAligns;
    var more := index + [e];
    assert e in more && forall d <- index :: d in more;
  }

  lemma OneEntry(index: Index, e: Entry, d: Entry)
    requires Distinct(index + [e]) && d in index
    ensures d.path != e.path
  {
    var i :| 0 <= i < |index| && index[i] == d;
    var more := index + [e];
    assert more[i] == d && more[|index|] == e;
  }

  lemma {:induction false} OneSegment(s: string)
    requires '/' !in s
    ensures Split(s) == [s]
  {
    if s != "" {
      OneSegment(s[1..]);
      var rest := Split(s[1..]);
      assert [s[0]] + rest[0] == s && rest[1..] == [];
    }
  }

  lemma SlashSegment(s: string)
    requires '/' !in s
    ensures Split("/" + s) == ["", s]
  {
    OneSegment(s);
    assert ("/" + s)[1..] == s;
  }

  lemma NormalizedPaths()
    ensures Normalize("/a") == "/a" && Normalize("/{x}") == "/{p}"
  {
    assert "a"[1..] == "";
    assert AfterBrace("x}") == Some("");
    assert AfterBrace("{x}") == Some("");
    assert Normalize("{x}") == "{p}";
  }

  lemma Paths()
    ensures PathFits("/{s}", "/a") && !PathAligns("/{s}", "/a")
    ensures PathAligns("/{s}", "/{x}")
  {
    NormalizedPaths();
    SlashSegment("a");
    SlashSegment("{s}");
    SlashSegment("{p}");
    hide Split, Normalize;
    var literal: string, marker: string, parameter: string := "a", "{s}", "{p}";
    assert literal[0] != marker[0] && literal[0] != parameter[0];
    assert Split("/{s}")[1] == marker && Split(Normalize("/a"))[1] == literal;
  }

  /** It happens: GET /{s} is offered by /a, until POST /{x} joins it. */
  lemma AddedPathTakesAway()
    ensures Matched([Entry("/a", {"GET"})], "GET", "/{s}").verdict == Offered
    ensures Matched([Entry("/a", {"GET"}), Entry("/{x}", {"POST"})], "GET", "/{s}").verdict == OtherVerb
  {
    Paths();
    hide Matched, PathFits, PathAligns;
    var a, x := Entry("/a", {"GET"}), Entry("/{x}", {"POST"});
    Differ(a, x);
    VerdictIs([a], "GET", "/{s}");
    assert a in [a] && Decides([a], "/{s}", a);
    VerdictIs([a, x], "GET", "/{s}");
    assert x in [a, x] && Decides([a, x], "/{s}", x);
  }

  lemma Differ(a: Entry, x: Entry)
    requires a == Entry("/a", {"GET"}) && x == Entry("/{x}", {"POST"})
    ensures a.path != x.path && a.path != "/{s}" && x.path != "/{s}" && "GET" !in x.verbs
  {
    assert a.path[1] == 'a' && x.path[2] == 'x';
    var get: string, post: string := "GET", "POST";
    assert |get| != |post|;
  }

  // ----- What splitting and normalizing do -----

  function WithSlashes(parts: seq<string>): string {
    if |parts| == 0 then "" else if |parts| == 1 then parts[0] else parts[0] + "/" + WithSlashes(parts[1..])
  }

  /** The segments are free of slashes, and joined by slashes they are the path. */
  lemma {:induction false} SplitIsJoined(s: string)
    ensures WithSlashes(Split(s)) == s && forall x <- Split(s) :: '/' !in x
  {
    if s != "" {
      SplitIsJoined(s[1..]);
      var rest := Split(s[1..]);
      assert s == [s[0]] + s[1..];
      if s[0] == '/' {
        assert ([""] + rest)[1..] == rest;
      } else {
        var parts := [[s[0]] + rest[0]] + rest[1..];
        assert parts[1..] == rest[1..];
        assert rest[0] in rest;
        if |rest| > 1 { Prepend(s[0], rest[0], WithSlashes(rest[1..])); }
      }
    }
  }

  lemma Prepend(c: char, first: string, rest: string)
    ensures [c] + first + "/" + rest == [c] + (first + "/" + rest)
  {
  }

  lemma {:induction false} AfterBraceIs(b: string, c: string)
    requires '}' !in b
    ensures AfterBrace(b + "}" + c) == Some(c) && AfterBrace(b).None?
  {
    var s := b + "}" + c;
    if b == "" {
      assert s[1..] == c;
    } else {
      assert s[1..] == b[1..] + "}" + c;
      AfterBraceIs(b[1..], c);
    }
  }

  /** From the first opening brace to the first closing one behind it the text becomes {p}, and so on
      from there; ... */
  lemma {:induction false} NormalizeIs(a: string, b: string, c: string)
    requires '{' !in a && '}' !in b
    ensures Normalize(a + "{" + b + "}" + c) == a + "{p}" + Normalize(c)
    decreases |a|
  {
    var s := a + "{" + b + "}" + c;
    if a == "" {
      assert s[1..] == b + "}" + c;
      AfterBraceIs("{" + b, c);
      assert ("{" + b) + "}" + c == s;
    } else {
      assert s[1..] == a[1..] + "{" + b + "}" + c && s[0] == a[0];
      NormalizeIs(a[1..], b, c);
      assert [a[0]] + (a[1..] + "{p}" + Normalize(c)) == a + "{p}" + Normalize(c);
    }
  }

  /** ... where no brace is opened, or none opened is closed, it stays as it is. */
  lemma {:induction false} NormalizeKeeps(a: string, b: string)
    requires '{' !in a && '}' !in b
    ensures Normalize(a + b) == a + b
    decreases |a|
  {
    if a == "" {
      assert a + b == b;
      Unclosed(b);
    } else {
      assert (a + b)[1..] == a[1..] + b;
      NormalizeKeeps(a[1..], b);
      assert [a[0]] + (a[1..] + b) == a + b;
    }
  }

  lemma {:induction false} Unclosed(b: string)
    requires '}' !in b
    ensures Normalize(b) == b
    decreases |b|
  {
    if b != "" {
      if AfterBrace(b).Some? { BraceFound(b); }
      Unclosed(b[1..]);
      assert [b[0]] + b[1..] == b;
    }
  }

  lemma {:induction false} HitsAppend(a: Index, b: Index, sdk: string, aligned: bool)
    ensures Hits(a + b, sdk, aligned) == Hits(a, sdk, aligned) + Hits(b, sdk, aligned)
  {
    hide Hit;
    if b == [] {
      assert a + b == a;
    } else {
      assert (a + b)[..|a + b| - 1] == a + b[..|b| - 1];
      HitsAppend(a, b[..|b| - 1], sdk, aligned);
    }
  }

  /** The reported paths stand in the order of the document. */
  lemma PathsInOrder(before: Index, e: Entry, after: Index, sdk: string)
    ensures Hits(before + [e] + after, sdk, true)
         == Hits(before, sdk, true) + (if PathAligns(sdk, e.path) then [e.path] else []) + Hits(after, sdk, true)
    ensures Hits(before + [e] + after, sdk, false)
         == Hits(before, sdk, false)
            + (if PathFits(sdk, e.path) && !PathAligns(sdk, e.path) then [e.path] else []) + Hits(after, sdk, false)
  {
    HitIff(sdk, e.path);
    hide Hit, PathAligns, PathFits;
    assert [e][..0] == [];
    forall aligned
      ensures Hits(before + [e] + after, sdk, aligned)
           == Hits(before, sdk, aligned) + (if Hit(sdk, e.path, aligned) then [e.path] else [])
              + Hits(after, sdk, aligned)
    {
      HitsAppend(before + [e], after, sdk, aligned);
      HitsAppend(before, [e], sdk, aligned);
    }
  }
}
