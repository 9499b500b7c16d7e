/** Paging as a plain window over the full list of matches plus a total count,
    standing in for Spring Data's `Pageable`, `Page` and `PageImpl`. */
module Paging {

  /** `PageRequest.of(page, size)`. */
  datatype PageRequest = PageRequest(page: nat, size: nat)

  /** A page: its content, the request it answers and the number of matches. */
  datatype Page<T> = Page(content: seq<T>, pageable: PageRequest, totalElements: nat)

  function Offset(req: PageRequest): nat {
    req.page * req.size
  }

  /** The elements of `s` that satisfy `p`, in their original order. */
  function Filter<T>(s: seq<T>, p: T -> bool): (r: seq<T>)
    ensures |r| <= |s|
    ensures forall i :: 0 <= i < |r| ==> r[i] in s && p(r[i])
    ensures forall i :: 0 <= i < |s| && p(s[i]) ==> s[i] in r
  {
    if s == [] then []
    else (if p(s[0]) then [s[0]] else []) + Filter(s[1..], p)
  }

  /** A filter keeps everything exactly when every element passes. */
  lemma {:induction false} FilterKeepsAll<T>(s: seq<T>, p: T -> bool)
    requires forall i :: 0 <= i < |s| ==> p(s[i])
    ensures Filter(s, p) == s
  {
    if s != [] {
      FilterKeepsAll(s[1..], p);
    }
  }

  /** A filter keeps a key that is pairwise distinct over the list pairwise distinct. */
  lemma {:induction false} FilterKeepsDistinct<T, K>(s: seq<T>, p: T -> bool, key: T -> K)
    requires forall i, j :: 0 <= i < j < |s| ==> key(s[i]) != key(s[j])
    ensures forall i, j :: 0 <= i < j < |Filter(s, p)| ==> key(Filter(s, p)[i]) != key(Filter(s, p)[j])
  {
    if s != [] {
      var rest := Filter(s[1..], p);
      FilterKeepsDistinct(s[1..], p, key);
      var f := Filter(s, p);
      if p(s[0]) {
        assert f == [s[0]] + rest;
        HeadKeyIsFresh(s, key);
        forall i, j | 0 <= i < j < |f| ensures key(f[i]) != key(f[j]) {
          if i == 0 {
            assert f[j] == rest[j - 1] && rest[j - 1] in s[1..];
          } else {
            assert f[i] == rest[i - 1] && f[j] == rest[j - 1];
          }
        }
      } else {
        assert f == rest;
      }
    }
  }

  /** Under a pairwise distinct key, no later element shares the head's key. */
  lemma HeadKeyIsFresh<T, K>(s: seq<T>, key: T -> K)
    requires s != []
    requires forall i, j :: 0 <= i < j < |s| ==> key(s[i]) != key(s[j])
    ensures forall x :: x in s[1..] ==> key(x) != key(s[0])
  {
    forall x | x in s[1..] ensures key(x) != key(s[0]) {
      var m :| 0 <= m < |s[1..]| && s[1..][m] == x;
      assert s[m + 1] == x;
    }
  }

  /** Filtering a list extended at the end filters the extension on its own. */
  lemma {:induction false} FilterAppend<T>(s: seq<T>, x: T, p: T -> bool)
    ensures Filter(s + [x], p) == Filter(s, p) + (if p(x) then [x] else [])
  {
    if s == [] {
      assert s + [x] == [x];
    } else {
      assert (s + [x])[1..] == s[1..] + [x];
      FilterAppend(s[1..], x, p);
    }
  }

  /** The window of `s` that page `req` shows: its elements sit at consecutive
      positions of `s` starting at the page's offset, and it is as long as the
      page size allows. */
  function Slice<T>(s: seq<T>, req: PageRequest): (r: seq<T>)
    ensures |r| == if Offset(req) >= |s| then 0
                   else if |s| - Offset(req) < req.size then |s| - Offset(req) else req.size
    ensures forall i :: 0 <= i < |r| ==> Offset(req) + i < |s| && r[i] == s[Offset(req) + i]
  {
    var start := Offset(req);
    if start >= |s| then []
    else if start + req.size <= |s| then s[start..start + req.size]
    else s[start..]
  }

  /** The page of `all` for `req`, with `all`'s length as the total. */
  function PageOf<T>(all: seq<T>, req: PageRequest): (p: Page<T>)
    ensures p.pageable == req && p.totalElements == |all|
    ensures forall i :: 0 <= i < |p.content| ==> p.content[i] in all
    ensures p.content == Slice(all, req)
  {
    Page(Slice(all, req), req, |all|)
  }

  /** The first page, when it is large enough, shows every match. */
  lemma FirstPageShowsAll<T>(all: seq<T>, req: PageRequest)
    requires req.page == 0 && |all| <= req.size
    ensures PageOf(all, req).content == all
  {
  }
}
