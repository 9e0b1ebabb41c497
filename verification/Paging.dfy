/** Offset pagination: one loop, used for transfers in pages of 100 and for recipients in pages of
    20, against a server whose listing can change between two requests. */
module Paging {
  import opened Wrappers

  const TRANSFERS_PAGE_SIZE: nat := 100
  const RECIPIENTS_PAGE_SIZE: nat := 20

  /** What the server answers to request number i at a given offset. */
  type Server<!R> = (nat, nat) -> Result<seq<R>, string>

  type Mapper<!R, !T> = R -> Result<T, string>

  /** From offset bound on, the server has no full page to give; a run needs some such bound. */
  ghost predicate Ends<R(!new)>(server: Server<R>, pageSize: nat, bound: nat) {
    forall i: nat, offset: nat :: offset >= bound ==> server(i, offset).Err? || |server(i, offset).value| < pageSize
  }

  function Prefixed<T>(prefix: seq<T>, r: Result<seq<T>, string>): Result<seq<T>, string> {
    match r
    case Err(e) => Err(e)
    case Ok(ts) => Ok(prefix + ts)
  }

  lemma PrefixedTwice<T>(a: seq<T>, b: seq<T>, r: Result<seq<T>, string>)
    ensures Prefixed(a, Prefixed(b, r)) == Prefixed(a + b, r)
    ensures Prefixed([], r) == r
  {
    if r.Ok? {
      assert a + (b + r.value) == a + b + r.value;
      assert [] + r.value == r.value;
    }
  }

  /** The mapped entries in order, or the first mapping failure. */
  function MapAll<R, T>(f: Mapper<R, T>, raws: seq<R>): (r: Result<seq<T>, string>)
    ensures r.Ok? <==> forall i :: 0 <= i < |raws| ==> f(raws[i]).Ok?
    ensures r.Ok? ==> |r.value| == |raws| && forall i :: 0 <= i < |raws| ==> f(raws[i]) == Ok(r.value[i])
  {
    if raws == [] then Ok([])
    else
      match f(raws[0])
      case Err(e) => Err(e)
      case Ok(t) => Prefixed([t], MapAll(f, raws[1..]))
  }

  function Page<R, T>(server: Server<R>, f: Mapper<R, T>, i: nat, offset: nat): Result<seq<T>, string> {
    match server(i, offset)
    case Err(e) => Err(e)
    case Ok(raws) => MapAll(f, raws)
  }

  /** The listing loop from request i at the given offset on. */
  ghost function ListFrom<R(!new), T>(server: Server<R>, f: Mapper<R, T>, pageSize: nat, bound: nat,
                                      i: nat, offset: nat)
    : (r: Result<seq<T>, string>)
    requires pageSize > 0 && Ends(server, pageSize, bound)
    decreases bound + pageSize - offset
  {
    match Page(server, f, i, offset)
    case Err(e) => Err(e)
    case Ok(page) =>
      if |page| < pageSize then Ok(page)
      else Prefixed(page, ListFrom(server, f, pageSize, bound, i + 1, offset + pageSize))
  }

  /** How many requests that takes. */
  ghost function Requests<R(!new), T>(server: Server<R>, f: Mapper<R, T>, pageSize: nat, bound: nat,
                                      i: nat, offset: nat)
    : (n: nat)
    requires pageSize > 0 && Ends(server, pageSize, bound)
    ensures n > 0
    decreases bound + pageSize - offset
  {
    var page := Page(server, f, i, offset);
    if page.Err? || |page.value| < pageSize then 1
    else 1 + Requests(server, f, pageSize, bound, i + 1, offset + pageSize)
  }

  method ListPage<R, T>(server: Server<R>, f: Mapper<R, T>, i: nat, offset: nat)
    returns (result: Result<seq<T>, string>)
    ensures result == Page(server, f, i, offset)
  {
    var answer := server(i, offset);
    if answer.Err? { return Err(answer.error); }
    var raws := answer.value;
    var mapped: seq<T> := [];
    PrefixedTwice([], [], MapAll(f, raws));
    for k := 0 to |raws|
      invariant MapAll(f, raws) == Prefixed(mapped, MapAll(f, raws[k..]))
    {
      assert raws[k..][1..] == raws[k + 1..];
      var one := f(raws[k]);
      if one.Err? { return Err(one.error); }
      PrefixedTwice(mapped, [one.value], MapAll(f, raws[k + 1..]));
      mapped := mapped + [one.value];
    }
    assert raws[|raws|..] == [] && mapped + [] == mapped;
    result := Ok(mapped);
  }

  method ListAll<R(!new), T>(server: Server<R>, f: Mapper<R, T>, pageSize: nat, ghost bound: nat)
    returns (result: Result<seq<T>, string>, requests: nat)
    requires pageSize > 0 && Ends(server, pageSize, bound)
    ensures result == ListFrom(server, f, pageSize, bound, 0, 0)
    ensures requests == Requests(server, f, pageSize, bound, 0, 0)
  {
    var all: seq<T> := [];
    var offset := 0;
    requests := 0;
    PrefixedTwice([], [], ListFrom(server, f, pageSize, bound, 0, 0));
    while true
      invariant Requests(server, f, pageSize, bound, 0, 0)
             == requests + Requests(server, f, pageSize, bound, requests, offset)
      invariant ListFrom(server, f, pageSize, bound, 0, 0)
             == Prefixed(all, ListFrom(server, f, pageSize, bound, requests, offset))
      decreases bound + pageSize - offset
    {
      var page := ListPage(server, f, requests, offset);
      requests := requests + 1;
      if page.Err? { return page, requests; }
      ghost var before := all;
      all := all + page.value;
      if |page.value| < pageSize { return Ok(all), requests; }
      PrefixedTwice(before, page.value, ListFrom(server, f, pageSize, bound, requests, offset + pageSize));
      offset := offset + pageSize;
    }
  }

  method ListTransfers<R(!new), T>(server: Server<R>, f: Mapper<R, T>, ghost bound: nat)
    returns (result: Result<seq<T>, string>, requests: nat)
    requires Ends(server, TRANSFERS_PAGE_SIZE, bound)
    ensures result == ListFrom(server, f, 100, bound, 0, 0)
    ensures requests == Requests(server, f, 100, bound, 0, 0)
  {
    result, requests := ListAll(server, f, TRANSFERS_PAGE_SIZE, bound);
  }

  method ListRecipients<R(!new), T>(profile: int, server: Server<R>, f: Mapper<R, T>, ghost bound: nat)
    returns (result: Result<seq<T>, string>, requests: nat)
    requires Ends(server, RECIPIENTS_PAGE_SIZE, bound)
    ensures profile == 0 ==> result == Err("profileID is required") && requests == 0
    ensures profile != 0 ==> result == ListFrom(server, f, 20, bound, 0, 0)
                             && requests == Requests(server, f, 20, bound, 0, 0)
  {
    if profile == 0 { return Err("profileID is required"), 0; }
    result, requests := ListAll(server, f, RECIPIENTS_PAGE_SIZE, bound);
  }

  // ----- Any server -----

  /** Request k of a run, at its offset, is answered with these entries. */
  predicate AnsweredWith<R(!new, ==)>(server: Server<R>, pageSize: nat, k: nat, raws: seq<R>) {
    server(k, k * pageSize) == Ok(raws)
  }

  /** Request k is answered with a full page, and each of its entries maps. */
  ghost predicate FullPage<R(!new), T>(server: Server<R>, f: Mapper<R, T>, pageSize: nat, k: nat) {
    exists raws :: AnsweredWith(server, pageSize, k, raws) && |raws| >= pageSize && forall x <- raws :: f(x).Ok?
  }

  ghost predicate ShortPage<R(!new), T>(server: Server<R>, f: Mapper<R, T>, pageSize: nat, k: nat) {
    exists raws :: AnsweredWith(server, pageSize, k, raws) && |raws| < pageSize && forall x <- raws :: f(x).Ok?
  }

  /** e is the error of request k, or that of the first entry in its answer that does not map. */
  ghost predicate FailsWith<R(!new), T>(server: Server<R>, f: Mapper<R, T>, pageSize: nat, k: nat, e: string) {
    || server(k, k * pageSize) == Err(e)
    || exists raws, i :: AnsweredWith(server, pageSize, k, raws) && FirstFailure(f, raws, i, e)
  }

  ghost predicate FirstFailure<R(!new), T>(f: Mapper<R, T>, raws: seq<R>, i: int, e: string) {
    0 <= i < |raws| && f(raws[i]) == Err(e) && forall h :: 0 <= h < i ==> f(raws[h]).Ok?
  }

  /** The answers to the requests before request n, one after the other. */
  function Answers<R>(server: Server<R>, pageSize: nat, n: nat): seq<R> {
    if n == 0 then []
    else
      var last := server(n - 1, (n - 1) * pageSize);
      Answers(server, pageSize, n - 1) + if last.Ok? then last.value else []
  }

  ghost predicate MappedTo<R(!new), T>(f: Mapper<R, T>, raws: seq<R>, ts: seq<T>) {
    |ts| == |raws| && forall i :: 0 <= i < |raws| ==> f(raws[i]) == Ok(ts[i])
  }

  lemma {:induction false} MapAllFails<R(!new), T>(f: Mapper<R, T>, raws: seq<R>) returns (i: int)
    requires MapAll(f, raws).Err?
    ensures FirstFailure(f, raws, i, MapAll(f, raws).error)
  {
    i := 0;
    if f(raws[0]).Ok? {
      i := MapAllFails(f, raws[1..]);
      i := i + 1;
    }
  }

  lemma PageCases<R(!new), T>(server: Server<R>, f: Mapper<R, T>, pageSize: nat, k: nat)
    ensures var page := Page(server, f, k, k * pageSize);
            if page.Err? then FailsWith(server, f, pageSize, k, page.error)
            else
              && server(k, k * pageSize).Ok? && MappedTo(f, server(k, k * pageSize).value, page.value)
              && (|page.value| >= pageSize ==> FullPage(server, f, pageSize, k))
              && (|page.value| < pageSize ==> ShortPage(server, f, pageSize, k))
  {
    var answer := server(k, k * pageSize);
    if answer.Ok? {
      assert AnsweredWith(server, pageSize, k, answer.value);
      if MapAll(f, answer.value).Err? {
        var i := MapAllFails(f, answer.value);
      }
    }
  }

  /** What a run from request i on comes to, in terms of the answers alone: n more requests, all but the
      last answered in full; a value exactly when the last is answered too, and short. */
  ghost predicate Comes<R(!new), T>(server: Server<R>, f: Mapper<R, T>, pageSize: nat, i: nat, n: nat,
                                          result: Result<seq<T>, string>, before: seq<T>) {
    && n > 0
    && (forall k :: i <= k < i + n - 1 ==> FullPage(server, f, pageSize, k))
    && match result
       case Err(e) => FailsWith(server, f, pageSize, i + n - 1, e)
       case Ok(ts) =>
         ShortPage(server, f, pageSize, i + n - 1) && MappedTo(f, Answers(server, pageSize, i + n), before + ts)
  }

  lemma MappedToMore<R(!new), T>(f: Mapper<R, T>, server: Server<R>, pageSize: nat, i: nat, before: seq<T>,
                                       page: seq<T>)
    requires MappedTo(f, Answers(server, pageSize, i), before)
    requires server(i, i * pageSize).Ok? && MappedTo(f, server(i, i * pageSize).value, page)
    ensures MappedTo(f, Answers(server, pageSize, i + 1), before + page)
  {
    var a := Answers(server, pageSize, i);
    assert Answers(server, pageSize, i + 1) == a + server(i, i * pageSize).value;
  }

  /** The last request: an error, or a short page. */
  lemma ComesEnd<R(!new), T>(server: Server<R>, f: Mapper<R, T>, pageSize: nat, i: nat, before: seq<T>)
    requires MappedTo(f, Answers(server, pageSize, i), before)
    ensures var page := Page(server, f, i, i * pageSize);
            page.Err? || |page.value| < pageSize ==> Comes(server, f, pageSize, i, 1, page, before)
  {
    PageCases(server, f, pageSize, i);
    hide Page, FullPage, ShortPage, FailsWith, Answers, MappedTo;
    var page := Page(server, f, i, i * pageSize);
    if page.Ok? { MappedToMore(f, server, pageSize, i, before, page.value); }
  }

  lemma ComesBefore<R(!new), T>(server: Server<R>, f: Mapper<R, T>, pageSize: nat, i: nat, n: nat, page: seq<T>,
                                rest: Result<seq<T>, string>, before: seq<T>)
    requires FullPage(server, f, pageSize, i) && Comes(server, f, pageSize, i + 1, n, rest, before + page)
    ensures Comes(server, f, pageSize, i, n + 1, Prefixed(page, rest), before)
  {
    hide FullPage, ShortPage, FailsWith, MappedTo;
    assert i + (n + 1) == i + 1 + n;
    if rest.Ok? { assert before + (page + rest.value) == before + page + rest.value; }
  }

  lemma ListSteps<R(!new), T>(server: Server<R>, f: Mapper<R, T>, pageSize: nat, bound: nat, i: nat, offset: nat)
    requires pageSize > 0 && Ends(server, pageSize, bound)
    ensures var page := Page(server, f, i, offset);
            if page.Err? || |page.value| < pageSize then
              && ListFrom(server, f, pageSize, bound, i, offset) == page
              && Requests(server, f, pageSize, bound, i, offset) == 1
            else
              && ListFrom(server, f, pageSize, bound, i, offset)
                 == Prefixed(page.value, ListFrom(server, f, pageSize, bound, i + 1, offset + pageSize))
              && Requests(server, f, pageSize, bound, i, offset)
                 == Requests(server, f, pageSize, bound, i + 1, offset + pageSize) + 1
  {
    hide Page, Prefixed;
  }

  lemma {:induction false} ListComesTo<R(!new), T>(server: Server<R>, f: Mapper<R, T>, pageSize: nat, bound: nat,
                                                   i: nat, offset: nat, before: seq<T>)
    requires pageSize > 0 && Ends(server, pageSize, bound) && offset == i * pageSize
    requires MappedTo(f, Answers(server, pageSize, i), before)
    ensures Comes(server, f, pageSize, i, Requests(server, f, pageSize, bound, i, offset),
                  ListFrom(server, f, pageSize, bound, i, offset), before)
    decreases bound + pageSize - offset
  {
    hide *;
    ListSteps(server, f, pageSize, bound, i, offset);
    var page := Page(server, f, i, offset);
    if page.Err? || |page.value| < pageSize {
      ComesEnd(server, f, pageSize, i, before);
    } else {
      PageUnderBound(server, f, pageSize, bound, i, offset);
      PageCases(server, f, pageSize, i);
      MappedToMore(f, server, pageSize, i, before, page.value);
      OneMore(i, pageSize);
      ListComesTo(server, f, pageSize, bound, i + 1, offset + pageSize, before + page.value);
      ComesBefore(server, f, pageSize, i, Requests(server, f, pageSize, bound, i + 1, offset + pageSize), page.value,
                  ListFrom(server, f, pageSize, bound, i + 1, offset + pageSize), before);
    }
  }

  lemma OneMore(i: nat, pageSize: nat)
    ensures (i + 1) * pageSize == i * pageSize + pageSize
  {
  }

  lemma PageUnderBound<R(!new), T>(server: Server<R>, f: Mapper<R, T>, pageSize: nat, bound: nat, i: nat, offset: nat)
    requires pageSize > 0 && Ends(server, pageSize, bound)
    requires Page(server, f, i, offset).Ok? && |Page(server, f, i, offset).value| >= pageSize
    ensures offset < bound
  {
  }

  /** Whatever the server answers: all requests but the last are answered with full pages of entries
      that map. The run returns a value exactly when every
      request it made is answered and every entry maps; it is then the mapped answers in order, ended by
      the first short one. Otherwise it returns the first error, and no request follows that. */
  lemma AnyServer<R(!new), T>(server: Server<R>, f: Mapper<R, T>, pageSize: nat, bound: nat)
    requires pageSize > 0 && Ends(server, pageSize, bound)
    ensures var n := Requests(server, f, pageSize, bound, 0, 0);
            && n > 0
            && (forall k :: 0 <= k < n - 1 ==> FullPage(server, f, pageSize, k))
            && match ListFrom(server, f, pageSize, bound, 0, 0)
               case Err(e) => FailsWith(server, f, pageSize, n - 1, e)
               case Ok(ts) => ShortPage(server, f, pageSize, n - 1) && MappedTo(f, Answers(server, pageSize, n), ts)
  {
    var none: seq<T> := [];
    ListComesTo(server, f, pageSize, bound, 0, 0, none);
    hide ListFrom, Requests, FullPage, FailsWith, ShortPage;
    var r := ListFrom(server, f, pageSize, bound, 0, 0);
    if r.Ok? { assert none + r.value == r.value; }
  }

  // ----- A server with a changing listing -----

  /** listing(i) is the whole listing when request i is answered. */
  type Listing<!R> = nat -> seq<R>

  function Window<R>(l: seq<R>, offset: nat, size: nat): seq<R> {
    if offset >= |l| then [] else if offset + size >= |l| then l[offset..] else l[offset..offset + size]
  }

  function Serving<R>(listing: Listing<R>, pageSize: nat): Server<R> {
    (i: nat, offset: nat) => Ok(Window(listing(i), offset, pageSize))
  }

  ghost predicate BoundedBy<R>(listing: Listing<R>, bound: nat) {
    forall i: nat :: |listing(i)| <= bound
  }

  ghost predicate IsSuffix<R>(s: seq<R>, l: seq<R>) {
    |s| <= |l| && l[|l| - |s|..] == s
  }

  /** New entries only ever appear in front of the listing. */
  ghost predicate Prepending<R>(listing: Listing<R>) {
    forall i: nat :: IsSuffix(listing(i), listing(i + 1))
  }

  lemma ServingEnds<R(!new)>(listing: Listing<R>, pageSize: nat, bound: nat)
    requires pageSize > 0 && BoundedBy(listing, bound)
    ensures Ends(Serving(listing, pageSize), pageSize, bound)
  {
    var server := Serving(listing, pageSize);
    forall i: nat, offset: nat | offset >= bound
      ensures |server(i, offset).value| < pageSize
    {
      assert |listing(i)| <= bound;
    }
  }

  ghost predicate Subsequence<R(!new)>(a: seq<R>, b: seq<R>) {
    a == [] || (b != [] && ((a[0] == b[0] && Subsequence(a[1..], b[1..])) || Subsequence(a, b[1..])))
  }

  lemma {:induction false} SubsequenceAfter<R(!new)>(a: seq<R>, x: seq<R>, b: seq<R>)
    requires Subsequence(a, b)
    ensures Subsequence(a, x + b)
  {
    if x == [] {
      assert x + b == b;
    } else {
      SubsequenceAfter(a, x[1..], b);
      assert (x + b)[1..] == x[1..] + b;
    }
  }

  lemma {:induction false} SubsequenceBoth<R(!new)>(c: seq<R>, a: seq<R>, b: seq<R>)
    requires Subsequence(a, b)
    ensures Subsequence(c + a, c + b)
  {
    if c == [] {
      assert c + a == a && c + b == b;
    } else {
      SubsequenceBoth(c[1..], a, b);
      assert (c + a)[1..] == c[1..] + a && (c + b)[1..] == c[1..] + b;
    }
  }

  /** The raw entries a run reads from request i at the given offset on. */
  ghost function Seen<R(!new)>(listing: Listing<R>, pageSize: nat, bound: nat, i: nat, offset: nat): seq<R>
    requires pageSize > 0 && BoundedBy(listing, bound)
    decreases bound + pageSize - offset
  {
    var page := Window(listing(i), offset, pageSize);
    if |page| < pageSize then page
    else
      assert |listing(i)| <= bound;
      page + Seen(listing, pageSize, bound, i + 1, offset + pageSize)
  }

  /** The number of its last request. */
  ghost function LastRequest<R(!new)>(listing: Listing<R>, pageSize: nat, bound: nat, i: nat, offset: nat): (k: nat)
    requires pageSize > 0 && BoundedBy(listing, bound)
    ensures k >= i
    decreases bound + pageSize - offset
  {
    var page := Window(listing(i), offset, pageSize);
    if |page| < pageSize then i
    else
      assert |listing(i)| <= bound;
      LastRequest(listing, pageSize, bound, i + 1, offset + pageSize)
  }

  lemma {:induction false} MapAllAppend<R, T>(f: Mapper<R, T>, a: seq<R>, b: seq<R>)
    ensures MapAll(f, a + b) == match MapAll(f, a)
                                case Err(e) => Err(e)
                                case Ok(x) => Prefixed(x, MapAll(f, b))
  {
    if a == [] {
      assert a + b == b;
      PrefixedTwice([], [], MapAll(f, b));
    } else {
      assert (a + b)[1..] == a[1..] + b;
      MapAllAppend(f, a[1..], b);
      if f(a[0]).Ok? && MapAll(f, a[1..]).Ok? {
        PrefixedTwice([f(a[0]).value], MapAll(f, a[1..]).value, MapAll(f, b));
      }
    }
  }

  /** The loop returns the mapped entries it has read, in order, or the first mapping failure. */
  lemma {:induction false} ListMapsSeen<R(!new), T>(listing: Listing<R>, f: Mapper<R, T>, pageSize: nat, bound: nat,
                                                    i: nat, offset: nat)
    requires pageSize > 0 && BoundedBy(listing, bound) && Ends(Serving(listing, pageSize), pageSize, bound)
    ensures ListFrom(Serving(listing, pageSize), f, pageSize, bound, i, offset)
         == MapAll(f, Seen(listing, pageSize, bound, i, offset))
    decreases bound + pageSize - offset
  {
    hide MapAll;
    var page := Window(listing(i), offset, pageSize);
    if |page| == pageSize {
      assert |listing(i)| <= bound;
      ListMapsSeen(listing, f, pageSize, bound, i + 1, offset + pageSize);
      MapAllAppend(f, page, Seen(listing, pageSize, bound, i + 1, offset + pageSize));
    }
  }

  lemma {:induction false} RequestsMade<R(!new), T>(listing: Listing<R>, f: Mapper<R, T>, pageSize: nat, bound: nat,
                                                    i: nat, offset: nat)
    requires pageSize > 0 && BoundedBy(listing, bound) && Ends(Serving(listing, pageSize), pageSize, bound)
    requires ListFrom(Serving(listing, pageSize), f, pageSize, bound, i, offset).Ok?
    ensures Requests(Serving(listing, pageSize), f, pageSize, bound, i, offset)
         == LastRequest(listing, pageSize, bound, i, offset) - i + 1
    decreases bound + pageSize - offset
  {
    hide MapAll;
    var page := Window(listing(i), offset, pageSize);
    if |page| == pageSize {
      assert |listing(i)| <= bound;
      RequestsMade(listing, f, pageSize, bound, i + 1, offset + pageSize);
    }
  }

  // ----- What a run reads -----

  /** Entries from index s of the first listing on are read in order, once the run has come far
      enough that everything before them is behind its offset. */
  lemma {:induction false} ReadsRest<R(!new)>(listing: Listing<R>, pageSize: nat, bound: nat, i: nat, offset: nat,
                                              first: seq<R>, s: nat)
    requires pageSize > 0 && BoundedBy(listing, bound) && Prepending(listing)
    requires IsSuffix(first, listing(i)) && s <= |first| && offset <= |listing(i)| - |first| + s
    ensures Subsequence(first[s..], Seen(listing, pageSize, bound, i, offset))
    decreases bound + pageSize - offset
  {
    hide *;
    var l := listing(i);
    PageOf(listing, pageSize, bound, i, offset);
    if |l| < offset + pageSize {
      ReadsTail(l, offset, first, s);
    } else {
      PrependedAt(listing, i);
      SuffixTwice(first, l, listing(i + 1));
      var g := |l| - |first|;
      var page, next := l[offset..offset + pageSize], Seen(listing, pageSize, bound, i + 1, offset + pageSize);
      if offset + pageSize <= g + s {
        ReadsRest(listing, pageSize, bound, i + 1, offset + pageSize, first, s);
        SubsequenceAfter(first[s..], page, next);
      } else {
        ReadsRest(listing, pageSize, bound, i + 1, offset + pageSize, first, offset + pageSize - g);
        ReadsMiddle(l, offset, pageSize, first, s, next);
      }
    }
  }

  lemma PageOf<R(!new)>(listing: Listing<R>, pageSize: nat, bound: nat, i: nat, offset: nat)
    requires pageSize > 0 && BoundedBy(listing, bound) && offset <= |listing(i)|
    ensures |listing(i)| <= bound
    ensures Seen(listing, pageSize, bound, i, offset)
         == if |listing(i)| < offset + pageSize then listing(i)[offset..]
            else listing(i)[offset..offset + pageSize] + Seen(listing, pageSize, bound, i + 1, offset + pageSize)
    ensures LastRequest(listing, pageSize, bound, i, offset)
         == if |listing(i)| < offset + pageSize then i
            else LastRequest(listing, pageSize, bound, i + 1, offset + pageSize)
  {
    assert |listing(i)| <= bound;
  }

  lemma PrependedAt<R>(listing: Listing<R>, i: nat)
    requires Prepending(listing)
    ensures IsSuffix(listing(i), listing(i + 1)) && |listing(i)| <= |listing(i + 1)|
  {
  }

  /** A short page holds all the entries still to come, behind some already read or newer ones. */
  lemma ReadsTail<R(!new)>(l: seq<R>, offset: nat, first: seq<R>, s: nat)
    requires IsSuffix(first, l) && s <= |first| && offset <= |l| - |first| + s
    ensures Subsequence(first[s..], l[offset..])
  {
    var p := |l| - |first| + s;
    assert l[|l| - |first|..][s..] == first[s..];
    assert l[offset..] == l[offset..p] + first[s..];
    Reflexive(first[s..]);
    hide Subsequence;
    SubsequenceAfter(first[s..], l[offset..p], first[s..]);
  }

  /** A full page holds the entries up to its end, and the later requests hold the rest. */
  lemma ReadsMiddle<R(!new)>(l: seq<R>, offset: nat, pageSize: nat, first: seq<R>, s: nat, next: seq<R>)
    requires IsSuffix(first, l) && s <= |first| && offset + pageSize <= |l|
    requires offset <= |l| - |first| + s < offset + pageSize
    requires Subsequence(first[offset + pageSize - (|l| - |first|)..], next)
    ensures Subsequence(first[s..], l[offset..offset + pageSize] + next)
  {
    hide Subsequence;
    var p := |l| - |first| + s;
    var e := offset + pageSize - (|l| - |first|);
    var unread := first[s..e];
    assert l[|l| - |first|..][s..e] == unread;
    assert l[offset..offset + pageSize] == l[offset..p] + unread;
    assert first[s..] == unread + first[e..];
    SubsequenceBoth(unread, first[e..], next);
    SubsequenceAfter(first[s..], l[offset..p], unread + next);
    assert l[offset..p] + unread + next == l[offset..p] + (unread + next);
  }

  lemma {:induction false} Reflexive<R(!new)>(a: seq<R>)
    ensures Subsequence(a, a)
  {
    if a != [] { Reflexive(a[1..]); }
  }

  lemma SuffixTwice<R>(a: seq<R>, b: seq<R>, c: seq<R>)
    requires IsSuffix(a, b) && IsSuffix(b, c)
    ensures IsSuffix(a, c)
  {
    assert c[|c| - |a|..] == c[|c| - |b|..][|b| - |a|..];
  }

  /** When the listing only grows in front, a run that completes has read every entry of the listing
      at its first request, in order, and as many entries as the listing had at its last. */
  lemma NothingLost<R(!new), T>(listing: Listing<R>, f: Mapper<R, T>, pageSize: nat, bound: nat)
    requires pageSize > 0 && BoundedBy(listing, bound) && Prepending(listing)
    ensures Ends(Serving(listing, pageSize), pageSize, bound)
    ensures var result := ListFrom(Serving(listing, pageSize), f, pageSize, bound, 0, 0);
            var seen := Seen(listing, pageSize, bound, 0, 0);
            && result == MapAll(f, seen)
            && Subsequence(listing(0), seen)
            && |seen| == |listing(LastRequest(listing, pageSize, bound, 0, 0))|
  {
    ServingEnds(listing, pageSize, bound);
    ListMapsSeen(listing, f, pageSize, bound, 0, 0);
    ReadsRest(listing, pageSize, bound, 0, 0, listing(0), 0);
    SeenCount(listing, pageSize, bound, 0, 0);
    assert listing(0)[0..] == listing(0);
  }

  lemma {:induction false} SeenCount<R(!new)>(listing: Listing<R>, pageSize: nat, bound: nat, i: nat, offset: nat)
    requires pageSize > 0 && BoundedBy(listing, bound) && Prepending(listing) && offset <= |listing(i)|
    ensures offset + |Seen(listing, pageSize, bound, i, offset)|
         == |listing(LastRequest(listing, pageSize, bound, i, offset))|
    decreases bound + pageSize - offset
  {
    hide *;
    PageOf(listing, pageSize, bound, i, offset);
    if offset + pageSize <= |listing(i)| {
      PrependedAt(listing, i);
      SeenCount(listing, pageSize, bound, i + 1, offset + pageSize);
    }
  }

  /** When the listing does not change, the result is the mapped listing itself, after one request
      more than it has full pages. */
  lemma UnchangedListing<R(!new), T>(listing: Listing<R>, f: Mapper<R, T>, pageSize: nat, bound: nat, l: seq<R>)
    requires pageSize > 0 && BoundedBy(listing, bound)
    requires forall i: nat :: listing(i) == l
    ensures Ends(Serving(listing, pageSize), pageSize, bound)
    ensures var server := Serving(listing, pageSize);
            var result := ListFrom(server, f, pageSize, bound, 0, 0);
            && result == MapAll(f, l)
            && (result.Ok? ==> Requests(server, f, pageSize, bound, 0, 0) == |l| / pageSize + 1)
  {
    ServingEnds(listing, pageSize, bound);
    ListMapsSeen(listing, f, pageSize, bound, 0, 0);
    SeenUnchanged(listing, pageSize, bound, l, 0, 0);
    assert l[0..] == l;
    if MapAll(f, l).Ok? { RequestsMade(listing, f, pageSize, bound, 0, 0); }
  }

  lemma {:induction false} SeenUnchanged<R(!new)>(listing: Listing<R>, pageSize: nat, bound: nat, l: seq<R>,
                                                  i: nat, offset: nat)
    requires pageSize > 0 && BoundedBy(listing, bound) && offset <= |l|
    requires forall i: nat :: listing(i) == l
    ensures Seen(listing, pageSize, bound, i, offset) == l[offset..]
    ensures LastRequest(listing, pageSize, bound, i, offset) == i + (|l| - offset) / pageSize
    decreases bound + pageSize - offset
  {
    hide *;
    PageOf(listing, pageSize, bound, i, offset);
    if offset + pageSize <= |l| {
      SeenUnchanged(listing, pageSize, bound, l, i + 1, offset + pageSize);
      assert l[offset..] == l[offset..offset + pageSize] + l[offset + pageSize..];
      OneMorePage(|l| - offset, pageSize);
    } else {
      NoFullPage(|l| - offset, pageSize);
    }
  }

  lemma OneMorePage(n: int, size: int)
    requires n >= size > 0
    ensures n / size == (n - size) / size + 1
  {
    var d := n / size - (n - size) / size - 1;
    assert d * size == (n - size) % size - n % size;
    Multiple(d, size);
  }

  lemma Multiple(d: int, size: int)
    requires size > 0
    ensures d >= 1 ==> d * size >= size
    ensures d <= -1 ==> d * size <= -size
  {
  }

  lemma NoFullPage(n: int, size: int)
    requires 0 <= n < size
    ensures n / size == 0
  {
  }

  // ----- Which entries a run reads -----

  /** The offset of request j. */
  function Start(j: nat, pageSize: nat): nat {
    j * pageSize
  }

  lemma StartNext(j: nat, pageSize: nat)
    ensures Start(0, pageSize) == 0
    ensures Start(j + 1, pageSize) == Start(j, pageSize) + pageSize
  {
  }

  /** Request j gets to see x. */
  ghost predicate ReadAt<R(!new)>(listing: Listing<R>, pageSize: nat, x: R, j: nat) {
    x in Window(listing(j), Start(j, pageSize), pageSize)
  }

  ghost predicate ReadWithin<R(!new)>(listing: Listing<R>, pageSize: nat, x: R, i: nat, last: nat) {
    exists j: nat :: i <= j <= last && ReadAt(listing, pageSize, x, j)
  }

  lemma ReadWithinStep<R(!new)>(listing: Listing<R>, pageSize: nat, x: R, i: nat, last: nat)
    requires i <= last
    ensures ReadWithin(listing, pageSize, x, i, last)
       <==> x in Window(listing(i), Start(i, pageSize), pageSize)
            || (i < last && ReadWithin(listing, pageSize, x, i + 1, last))
  {
    assert ReadAt(listing, pageSize, x, i) <==> x in Window(listing(i), Start(i, pageSize), pageSize);
    hide ReadAt;
  }

  lemma SeenStep<R(!new)>(listing: Listing<R>, pageSize: nat, bound: nat, x: R, i: nat, offset: nat)
    requires pageSize > 0 && BoundedBy(listing, bound)
    ensures var here := x in Window(listing(i), offset, pageSize);
            var last := LastRequest(listing, pageSize, bound, i, offset);
            && (last > i ==> offset + pageSize <= bound
                             && last == LastRequest(listing, pageSize, bound, i + 1, offset + pageSize))
            && (x in Seen(listing, pageSize, bound, i, offset)
                <==> here || (last > i && x in Seen(listing, pageSize, bound, i + 1, offset + pageSize)))
  {
    assert |listing(i)| <= bound;
  }

  lemma ReadWithinEnd<R(!new)>(listing: Listing<R>, pageSize: nat, x: R, last: nat)
    ensures ReadWithin(listing, pageSize, x, 0, last)
       <==> ReadAt(listing, pageSize, x, last) || (last > 0 && ReadWithin(listing, pageSize, x, 0, last - 1))
  {
    hide ReadAt;
  }

  /** Whatever the listing does, an entry is read if and only if it stands in the window of one of the requests. */
  lemma {:induction false} ReadIffInSomeWindow<R(!new)>(listing: Listing<R>, pageSize: nat, bound: nat, x: R, i: nat)
    requires pageSize > 0 && BoundedBy(listing, bound)
    ensures x in Seen(listing, pageSize, bound, i, Start(i, pageSize))
       <==> ReadWithin(listing, pageSize, x, i, LastRequest(listing, pageSize, bound, i, Start(i, pageSize)))
    decreases bound + pageSize - Start(i, pageSize)
  {
    hide *;
    var last := LastRequest(listing, pageSize, bound, i, Start(i, pageSize));
    SeenStep(listing, pageSize, bound, x, i, Start(i, pageSize));
    ReadWithinStep(listing, pageSize, x, i, last);
    StartNext(i, pageSize);
    if last > i { ReadIffInSomeWindow(listing, pageSize, bound, x, i + 1); }
  }

  /** In the first n listings, x stands at p(i) of listing(i) and nowhere else. */
  ghost predicate StandsAt<R(!new)>(listing: Listing<R>, n: nat, x: R, p: nat -> nat) {
    forall i: nat :: i < n ==> p(i) < |listing(i)| && OnlyAt(listing(i), x, p(i))
  }

  ghost predicate OnlyAt<R(!new)>(l: seq<R>, x: R, at: nat) {
    forall k :: 0 <= k < |l| ==> (l[k] == x <==> k == at)
  }

  lemma ReadAtPosition<R(!new)>(listing: Listing<R>, pageSize: nat, x: R, p: nat -> nat, n: nat, j: nat)
    requires StandsAt(listing, n, x, p) && j < n
    ensures ReadAt(listing, pageSize, x, j) <==> Start(j, pageSize) <= p(j) < Start(j, pageSize) + pageSize
  {
    hide Start;
    var l, offset := listing(j), Start(j, pageSize);
    assert p(j) < |l| && OnlyAt(l, x, p(j));
    assert forall k :: 0 <= k < |Window(l, offset, pageSize)| ==> Window(l, offset, pageSize)[k] == l[offset + k];
    if offset <= p(j) < offset + pageSize {
      assert Window(l, offset, pageSize)[p(j) - offset] == x;
    }
  }

  /** Between requests i and i + 1 the entry moves from behind the next offset to before it. */
  ghost predicate SlipsPast(p: nat -> nat, pageSize: nat, i: nat) {
    p(i) >= Start(i + 1, pageSize) > p(i + 1)
  }

  /** An entry that never slips past is read before request k, or still ahead of it. */
  lemma {:induction false} StaysAhead<R(!new)>(listing: Listing<R>, pageSize: nat, x: R, p: nat -> nat, n: nat, k: nat)
    requires StandsAt(listing, n, x, p) && k < n
    requires forall i: nat :: i < k ==> !SlipsPast(p, pageSize, i)
    ensures p(k) >= Start(k, pageSize) || (k > 0 && ReadWithin(listing, pageSize, x, 0, k - 1))
  {
    hide ReadAt, Start, StandsAt, ReadWithin;
    if k == 0 {
      StartNext(0, pageSize);
    } else {
      StaysAhead(listing, pageSize, x, p, n, k - 1);
      ReadWithinEnd(listing, pageSize, x, k - 1);
      ReadAtPosition(listing, pageSize, x, p, n, k - 1);
      StartNext(k - 1, pageSize);
      assert !SlipsPast(p, pageSize, k - 1);
    }
  }

  /** An entry that moves back by at most a page a request and is before offset Start(j) + d at request j, for
      d at most a page, stays before Start(k) + d. */
  lemma {:induction false} StaysBehind(p: nat -> nat, pageSize: nat, d: nat, j: nat, k: nat)
    requires j <= k && p(j) < Start(j, pageSize) + d
    requires forall i: nat :: i < k ==> p(i + 1) <= p(i) + pageSize
    ensures p(k) < Start(k, pageSize) + d
  {
    hide Start;
    if j < k {
      StaysBehind(p, pageSize, d, j, k - 1);
      StartNext(k - 1, pageSize);
      assert p(k) <= p(k - 1) + pageSize;
    }
  }

  /** So an entry that never slips past is read, provided the last listing ends within the last page. */
  lemma ReadUnlessSlipping<R(!new)>(listing: Listing<R>, pageSize: nat, x: R, p: nat -> nat, last: nat)
    requires StandsAt(listing, last + 1, x, p) && |listing(last)| < Start(last, pageSize) + pageSize
    requires forall i: nat :: i < last ==> !SlipsPast(p, pageSize, i)
    ensures ReadWithin(listing, pageSize, x, 0, last)
  {
    StaysAhead(listing, pageSize, x, p, last + 1, last);
    assert p(last) < |listing(last)|;
    ReadAtPosition(listing, pageSize, x, p, last + 1, last);
    ReadWithinEnd(listing, pageSize, x, last);
    hide ReadAt, Start, StandsAt;
  }

  lemma NotReadWhenSlipping<R(!new)>(listing: Listing<R>, pageSize: nat, x: R, p: nat -> nat, last: nat, i: nat, j: nat)
    requires StandsAt(listing, last + 1, x, p) && i < last && j <= last
    requires forall i: nat :: i < last ==> p(i + 1) <= p(i) + pageSize
    requires SlipsPast(p, pageSize, i)
    ensures !ReadAt(listing, pageSize, x, j)
  {
    hide ReadAt, Start, StandsAt;
    StartNext(i, pageSize);
    ReadAtPosition(listing, pageSize, x, p, last + 1, j);
    if j > i {
      StaysBehind(p, pageSize, 0, i + 1, j);
    } else if p(j) < Start(j, pageSize) + pageSize {
      StaysBehind(p, pageSize, pageSize, j, i);
    }
  }

  /** An entry listed once at every request, and pushed back by at most a page between two of them, is
      read if and only if it never slips past the offset. */
  lemma ReadIffNeverSlipsPast<R(!new)>(listing: Listing<R>, pageSize: nat, bound: nat, x: R, p: nat -> nat)
    requires pageSize > 0 && BoundedBy(listing, bound)
    requires var last := LastRequest(listing, pageSize, bound, 0, 0);
             && StandsAt(listing, last + 1, x, p)
             && forall i: nat :: i < last ==> p(i + 1) <= p(i) + pageSize
    ensures x in Seen(listing, pageSize, bound, 0, 0)
       <==> forall i: nat :: i < LastRequest(listing, pageSize, bound, 0, 0) ==> !SlipsPast(p, pageSize, i)
  {
    StartNext(0, pageSize);
    ReadIffInSomeWindow(listing, pageSize, bound, x, 0);
    LastIsShort(listing, pageSize, bound, 0);
    hide Start, Seen, LastRequest, ReadAt, StandsAt, SlipsPast;
    var last := LastRequest(listing, pageSize, bound, 0, 0);
    if forall i: nat :: i < last ==> !SlipsPast(p, pageSize, i) {
      ReadUnlessSlipping(listing, pageSize, x, p, last);
    } else {
      var i: nat :| i < last && SlipsPast(p, pageSize, i);
      forall j: nat | j <= last
        ensures !ReadAt(listing, pageSize, x, j)
      {
        NotReadWhenSlipping(listing, pageSize, x, p, last, i, j);
      }
    }
  }

  /** The last request gets less than a page: the listing ends within it. */
  lemma {:induction false} LastIsShort<R(!new)>(listing: Listing<R>, pageSize: nat, bound: nat, i: nat)
    requires pageSize > 0 && BoundedBy(listing, bound)
    ensures var last := LastRequest(listing, pageSize, bound, i, Start(i, pageSize));
            |listing(last)| < Start(last, pageSize) + pageSize
    decreases bound + pageSize - Start(i, pageSize)
  {
    hide Start;
    assert |listing(i)| <= bound;
    if |Window(listing(i), Start(i, pageSize), pageSize)| == pageSize {
      StartNext(i, pageSize);
      LastIsShort(listing, pageSize, bound, i + 1);
    }
  }

  /** In particular an entry that never moves forward is read, however many entries before it are replaced. */
  lemma NeverForwardIsRead<R(!new)>(listing: Listing<R>, pageSize: nat, bound: nat, x: R, p: nat -> nat)
    requires pageSize > 0 && BoundedBy(listing, bound)
    requires var last := LastRequest(listing, pageSize, bound, 0, 0);
             && StandsAt(listing, last + 1, x, p)
             && forall i: nat :: i < last ==> p(i) <= p(i + 1) <= p(i) + pageSize
    ensures x in Seen(listing, pageSize, bound, 0, 0)
  {
    ReadIffNeverSlipsPast(listing, pageSize, bound, x, p);
  }

  /** When an entry leaves the front of the listing between the first two requests, the first entry of the
      second page slips past: it is listed all the time and never read. */
  lemma ShrinkingLosesAnEntry<R(!new)>(listing: Listing<R>, pageSize: nat, bound: nat, l: seq<R>)
    requires pageSize > 0 && BoundedBy(listing, bound) && |l| == pageSize + 1
    requires forall i, j :: 0 <= i < j < |l| ==> l[i] != l[j]
    requires listing(0) == l && forall i: nat :: i >= 1 ==> listing(i) == l[1..]
    ensures l[pageSize] in listing(0) && forall i: nat :: i >= 1 ==> l[pageSize] in listing(i)
    ensures l[pageSize] !in Seen(listing, pageSize, bound, 0, 0)
  {
    var p: nat -> nat := (i: nat) => if i == 0 then pageSize else pageSize - 1;
    assert l[1..][pageSize - 1] == l[pageSize];
    assert |listing(1)| <= bound && |listing(0)| <= bound;
    assert LastRequest(listing, pageSize, bound, 1, pageSize) == 1;
    assert SlipsPast(p, pageSize, 0);
    ReadIffNeverSlipsPast(listing, pageSize, bound, l[pageSize], p);
  }
}
