/** tools/production_release_state.py's paging: read every page before treating absence as
    authoritative.  A Link header is given by its comma-separated items, already matched
    against the header pattern. */
module ReleasePages {
  import opened Wrappers

  const PAGE_SIZE := 100
  const MAX_PAGES := 1000

  /** Exactly {API_BASE}{endpoint}?per_page=100&page={page}, or any other address. */
  datatype Url = PageUrl(endpoint: string, page: int) | OtherUrl(text: string)

  datatype LinkItem = Malformed | Relation(name: string, url: Url)

  /** A response: its JSON array, or None when the document is not an array. */
  datatype Response<+T> = Response(items: Option<seq<T>>, link: Option<seq<LinkItem>>)

  /** Distinct, well-formed relations, by name. */
  function Relations(link: seq<LinkItem>): Option<map<string, Url>> {
    if link == [] then Some(map[]) else
    var before :- Relations(link[..|link| - 1]);
    match link[|link| - 1]
    case Malformed => None
    case Relation(name, url) => if name in before then None else Some(before[name := url])
  }

  /** _next_page: whether there is a next page, or None where the header raises. */
  function NextPage(link: Option<seq<LinkItem>>, endpoint: string, page: int): Option<bool> {
    if link.None? then Some(false) else
    var relations :- Relations(link.value);
    if "next" !in relations then Some(false)
    else if relations["next"] != PageUrl(endpoint, page + 1) then None
    else Some(true)
  }

  method HasNext(link: Option<seq<LinkItem>>, endpoint: string, page: int) returns (r: Option<bool>)
    ensures r == NextPage(link, endpoint, page)
  {
    if link.None? {
      return Some(false);
    }
    var relations: map<string, Url> := map[];
    assert link.value[..0] == [];
    for i := 0 to |link.value|
      invariant Relations(link.value[..i]) == Some(relations)
    {
      assert link.value[..i + 1][..i] == link.value[..i];
      var item := link.value[i];
      if item.Malformed? || item.name in relations {
        RelationsFail(link.value, i + 1);
        return None;
      }
      relations := relations[item.name := item.url];
    }
    assert link.value[..|link.value|] == link.value;
    if "next" !in relations {
      return Some(false);
    }
    r := if relations["next"] != PageUrl(endpoint, page + 1) then None else Some(true);
  }

  lemma {:induction false} RelationsFail(link: seq<LinkItem>, k: nat)
    requires k <= |link| && Relations(link[..k]).None?
    ensures Relations(link).None?
    decreases |link| - k
  {
    if k < |link| {
      assert link[..k + 1][..k] == link[..k];
      RelationsFail(link, k + 1);
    } else {
      assert link[..k] == link;
    }
  }

  /** What the loop does from a page on: how many requests it makes, and the documents it
      returns, or None where it raises. */
  function ReadFrom<T>(server: nat -> Response<T>, endpoint: string, page: nat): (nat, Option<seq<T>>)
    decreases MAX_PAGES + 1 - page
  {
    if page > MAX_PAGES then (0, None) else
    var response := server(page);
    if response.items.None? || |response.items.value| > PAGE_SIZE then (1, None) else
    var items := response.items.value;
    match NextPage(response.link, endpoint, page)
    case None => (1, None)
    case Some(next) =>
      if next && |items| != PAGE_SIZE then (1, None)
      else if !next && |items| < PAGE_SIZE then (1, Some(items))
      else
        var (requests, rest) := ReadFrom(server, endpoint, page + 1);
        (1 + requests, if rest.None? then None else Some(items + rest.value))
  }

  /** _pages */
  method Pages<T>(server: nat -> Response<T>, endpoint: string) returns (requests: nat, documents: Option<seq<T>>)
    ensures (requests, documents) == ReadFrom(server, endpoint, 1)
  {
    var collected: seq<T> := [];
    requests := 0;
    ghost var all := ReadFrom(server, endpoint, 1).1;
    assert all.Some? ==> collected + all.value == all.value;
    for page := 1 to MAX_PAGES + 1
      invariant var (more, rest) := ReadFrom(server, endpoint, page);
                ReadFrom(server, endpoint, 1) ==
                (requests + more, if rest.None? then None else Some(collected + rest.value))
    {
      var response := server(page);
      requests := requests + 1;
      if response.items.None? || |response.items.value| > PAGE_SIZE {
        return requests, None;
      }
      var hasNext := HasNext(response.link, endpoint, page);
      if hasNext.None? {
        return requests, None;
      }
      var items := response.items.value;
      if hasNext.value && |items| != PAGE_SIZE {
        return requests, None;
      }
      ghost var rest := ReadFrom(server, endpoint, page + 1).1;
      if rest.Some? {
        assert collected + (items + rest.value) == (collected + items) + rest.value;
      }
      collected := collected + items;
      if !hasNext.value && |items| < PAGE_SIZE {
        return requests, Some(collected);
      }
    }
    documents := None;
  }

  // ----- honest servers

  function Slice<T>(items: seq<T>, page: nat): seq<T>
    requires page > 0
  {
    items[Min((page - 1) * PAGE_SIZE, |items|)..Min(page * PAGE_SIZE, |items|)]
  }

  /** A Link header that names a next page exactly when there is one, by its exact address. */
  predicate HonestLink(link: Option<seq<LinkItem>>, endpoint: string, page: nat, total: nat) {
    link.Some? ==>
      && Relations(link.value).Some?
      && ("next" in Relations(link.value).value <==> page * PAGE_SIZE < total)
      && ("next" in Relations(link.value).value ==> Relations(link.value).value["next"] == PageUrl(endpoint, page + 1))
  }

  /** A server that holds `items` and serves them 100 to a page, with or without Link headers. */
  ghost predicate Honest<T>(server: nat -> Response<T>, endpoint: string, items: seq<T>) {
    forall page | 1 <= page <= MAX_PAGES ::
      && server(page).items == Some(Slice(items, page))
      && HonestLink(server(page).link, endpoint, page, |items|)
  }

  lemma {:induction false} ReadsRest<T>(server: nat -> Response<T>, endpoint: string, items: seq<T>, page: nat)
    requires Honest(server, endpoint, items)
    requires 1 <= page <= MAX_PAGES + 1 && (page - 1) * PAGE_SIZE <= |items|
    ensures |items| < MAX_PAGES * PAGE_SIZE ==>
              ReadFrom(server, endpoint, page) ==
              (|items| / PAGE_SIZE + 2 - page, Some(items[(page - 1) * PAGE_SIZE..]))
    ensures |items| >= MAX_PAGES * PAGE_SIZE ==>
              ReadFrom(server, endpoint, page) == (MAX_PAGES + 1 - page, None)
    decreases MAX_PAGES + 1 - page
  {
    if page <= MAX_PAGES {
      var slice := Slice(items, page);
      var next := NextPage(server(page).link, endpoint, page);
      assert next.Some? && (next.value ==> page * PAGE_SIZE < |items|);
      if page * PAGE_SIZE <= |items| {
        ReadsRest(server, endpoint, items, page + 1);
        assert slice + items[page * PAGE_SIZE..] == items[(page - 1) * PAGE_SIZE..];
      } else {
        assert slice == items[(page - 1) * PAGE_SIZE..];
      }
    }
  }

  /** Main result: against an honest server, with or without Link, paging returns the whole list
      in order after floor(n/100) + 1 requests exactly when it holds fewer than 100000 items;
      from 100000 on it raises after a thousand requests. */
  lemma PagesReadEverything<T>(server: nat -> Response<T>, endpoint: string, items: seq<T>)
    requires Honest(server, endpoint, items)
    ensures |items| < MAX_PAGES * PAGE_SIZE ==>
              ReadFrom(server, endpoint, 1) == (|items| / PAGE_SIZE + 1, Some(items))
    ensures |items| >= MAX_PAGES * PAGE_SIZE ==> ReadFrom(server, endpoint, 1) == (MAX_PAGES, None)
  {
    hide ReadFrom;
    ReadsRest(server, endpoint, items, 1);
    assert items[0..] == items;
  }

  // ----- any server

  predicate Named(item: LinkItem, name: string) {
    item.Relation? && item.name == name
  }

  /** The header is readable, every relation occurs once, and there is a next page, at the one address
      it may have, exactly when `next`. */
  predicate LinkSays(link: Option<seq<LinkItem>>, endpoint: string, page: int, next: bool) {
    if link.None? then !next
    else
      && (forall i | 0 <= i < |link.value| :: link.value[i].Relation?)
      && (forall i, j | 0 <= i < j < |link.value| :: link.value[i].name != link.value[j].name)
      && (next <==> exists i | 0 <= i < |link.value| :: Named(link.value[i], "next"))
      && forall i | 0 <= i < |link.value| && Named(link.value[i], "next") ::
           link.value[i].url == PageUrl(endpoint, page + 1)
  }

  lemma {:induction false} RelationsExactly(link: seq<LinkItem>)
    ensures Relations(link).Some? <==>
            && (forall i | 0 <= i < |link| :: link[i].Relation?)
            && (forall i, j | 0 <= i < j < |link| :: link[i].name != link[j].name)
    ensures Relations(link).Some? ==>
              && (forall i | 0 <= i < |link| ::
                    link[i].name in Relations(link).value && Relations(link).value[link[i].name] == link[i].url)
              && forall name | name in Relations(link).value :: exists i | 0 <= i < |link| :: Named(link[i], name)
  {
    if link != [] {
      var before := link[..|link| - 1];
      RelationsExactly(before);
      assert forall i | 0 <= i < |before| :: before[i] == link[i];
      if Relations(link).Some? {
        forall name | name in Relations(link).value ensures exists i | 0 <= i < |link| :: Named(link[i], name) {
          if name in Relations(before).value {
            var i :| 0 <= i < |before| && Named(before[i], name);
            assert Named(link[i], name);
          } else {
            assert Named(link[|link| - 1], name);
          }
        }
      }
    }
  }

  lemma LinkSaysExactly(link: Option<seq<LinkItem>>, endpoint: string, page: int, next: bool)
    ensures NextPage(link, endpoint, page) == Some(next) <==> LinkSays(link, endpoint, page, next)
  {
    if link.Some? {
      RelationsExactly(link.value);
      if Relations(link.value).Some? && "next" in Relations(link.value).value {
        var i :| 0 <= i < |link.value| && Named(link.value[i], "next");
      }
      hide Relations;
    }
  }

  /** A page of a hundred with a readable header, and one of fewer that names no next page. */
  predicate FullPage<T>(response: Response<T>, endpoint: string, page: int) {
    && response.items.Some? && |response.items.value| == 100
    && (LinkSays(response.link, endpoint, page, true) || LinkSays(response.link, endpoint, page, false))
  }

  predicate LastPage<T>(response: Response<T>, endpoint: string, page: int) {
    response.items.Some? && |response.items.value| < 100 && LinkSays(response.link, endpoint, page, false)
  }

  ghost predicate ReadsTo<T>(server: nat -> Response<T>, endpoint: string, page: nat, last: nat) {
    && page <= last <= 1000 && LastPage(server(last), endpoint, last)
    && forall p | page <= p < last :: FullPage(server(p), endpoint, p)
  }

  function Joined<T>(server: nat -> Response<T>, page: nat, last: nat): seq<T>
    decreases last + 1 - page
  {
    if page > last || server(page).items.None? then [] else server(page).items.value + Joined(server, page + 1, last)
  }

  lemma {:induction false} ReadsExactly<T>(server: nat -> Response<T>, endpoint: string, page: nat)
    requires 1 <= page <= 1001
    ensures ReadFrom(server, endpoint, page).1.Some? <==> exists last :: ReadsTo(server, endpoint, page, last)
    ensures forall last: nat | ReadsTo(server, endpoint, page, last) ::
              ReadFrom(server, endpoint, page) == (last + 1 - page, Some(Joined(server, page, last)))
    decreases 1001 - page
  {
    if page <= 1000 {
      LinkSaysExactly(server(page).link, endpoint, page, true);
      LinkSaysExactly(server(page).link, endpoint, page, false);
      hide NextPage, LinkSays;
      ReadsExactly(server, endpoint, page + 1);
      forall last ensures ReadsTo(server, endpoint, page, last) <==>
        if page == last then LastPage(server(page), endpoint, page)
        else FullPage(server(page), endpoint, page) && ReadsTo(server, endpoint, page + 1, last)
      {
      }
      if LastPage(server(page), endpoint, page) {
        assert ReadsTo(server, endpoint, page, page);
        assert Joined(server, page + 1, page) == [];
        assert server(page).items.value + [] == server(page).items.value;
      }
      if ReadFrom(server, endpoint, page + 1).1.Some? {
        var last :| ReadsTo(server, endpoint, page + 1, last);
        assert FullPage(server(page), endpoint, page) ==> ReadsTo(server, endpoint, page, last);
      }
    }
  }

  /** Main result: against any server, honest or not, paging returns exactly when the pages up to some
      page, at most the thousandth, are full with readable headers and that one is not full and names
      no next page; it then returns those pages, joined, after that many requests. */
  lemma PagesReadExactly<T>(server: nat -> Response<T>, endpoint: string)
    ensures ReadFrom(server, endpoint, 1).1.Some? <==> exists last :: ReadsTo(server, endpoint, 1, last)
    ensures forall last: nat | ReadsTo(server, endpoint, 1, last) ::
              ReadFrom(server, endpoint, 1) == (last, Some(Joined(server, 1, last)))
  {
    hide ReadFrom, ReadsTo;
    ReadsExactly(server, endpoint, 1);
  }
}
