/** Pages of a listing: the repositories' `findAll(Pageable)` returns one slice
    of the rows, in the store's sort order, together with the total row count. */
module Paging {

  /** A page request: zero-based page number and page size. */
  datatype PageRequest = PageRequest(number: nat, size: nat)

  /** One page of results and the metadata of the query it came from. */
  datatype Page<T> = Page(content: seq<T>, number: nat, size: nat, totalElements: nat)

  /** Index of the first row of the requested page, clamped to the listing. */
  function Offset(count: nat, req: PageRequest): (lo: nat)
    ensures lo <= count
    ensures req.number * req.size <= count ==> lo == req.number * req.size
  {
    if req.number * req.size <= count then req.number * req.size else count
  }

  /** The requested page of `rows`: at most `size` consecutive rows starting at
      the page's offset, and the total number of rows. */
  function PageOf<T>(rows: seq<T>, req: PageRequest): (p: Page<T>)
    ensures p.totalElements == |rows|
    ensures p.number == req.number && p.size == req.size
    ensures |p.content| <= req.size
    ensures Offset(|rows|, req) + |p.content| <= |rows|
    ensures forall i :: 0 <= i < |p.content| ==> p.content[i] == rows[Offset(|rows|, req) + i]
    ensures Offset(|rows|, req) + req.size <= |rows| ==> |p.content| == req.size
    ensures Offset(|rows|, req) + req.size > |rows| ==> Offset(|rows|, req) + |p.content| == |rows|
  {
    var lo := Offset(|rows|, req);
    var hi := if lo + req.size <= |rows| then lo + req.size else |rows|;
    Page(rows[lo..hi], req.number, req.size, |rows|)
  }
}
