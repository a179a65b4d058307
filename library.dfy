/**
 * The `Library` table as the bot reads it: a sequence of rows, and the two queries of
 * `querydb` over it, the existence check and the fetch of the matching row with the
 * smallest `id`.
 */
module Library {
  import opened Text

  /** One row of the `Library` table (the columns the bot selects, plus the topic it stores). */
  datatype Record = Record(
    id: int,
    versionId: int,
    topic: string,
    moduleName: string,
    keywords: string,
    header: string,
    body: string,
    footer: string,
    url: string)

  /** `id` is the primary key: no two rows share it. */
  predicate UniqueIds(kb: seq<Record>) {
    forall i, j :: 0 <= i < j < |kb| ==> kb[i].id != kb[j].id
  }

  /** The filter of both queries: `module == moduleName` and `keywords.contains(keyword)`. */
  predicate Hits(rec: Record, moduleName: string, keyword: string) {
    rec.moduleName == moduleName && Contains(rec.keywords, keyword)
  }

  /** `session.query(exists().where(...)).scalar()`: some row passes the filter. */
  function AnyHit(kb: seq<Record>, moduleName: string, keyword: string): (b: bool)
    ensures b <==> exists i :: 0 <= i < |kb| && Hits(kb[i], moduleName, keyword)
  {
    if kb == [] then false
    else Hits(kb[0], moduleName, keyword) || AnyHit(kb[1..], moduleName, keyword)
  }

  /**
   * `.filter(...).order_by(id).first()`, run only after the existence check: a row of the table
   * that passes the filter and whose `id` is no larger than that of any other row that does.
   */
  function FirstById(kb: seq<Record>, moduleName: string, keyword: string): (r: Record)
    requires AnyHit(kb, moduleName, keyword)
    ensures r in kb && Hits(r, moduleName, keyword)
    ensures forall i :: 0 <= i < |kb| && Hits(kb[i], moduleName, keyword) ==> r.id <= kb[i].id
  {
    if !AnyHit(kb[1..], moduleName, keyword) then kb[0]
    else
      var best := FirstById(kb[1..], moduleName, keyword);
      if Hits(kb[0], moduleName, keyword) && kb[0].id <= best.id then kb[0] else best
  }

  /**
   * With unique ids the fetch is determined: the row that passes the filter with the lowest
   * `id` is the one returned, whatever its place in the table.
   */
  lemma LowestIdWins(kb: seq<Record>, moduleName: string, keyword: string, i: nat)
    requires UniqueIds(kb) && i < |kb| && Hits(kb[i], moduleName, keyword)
    requires forall j :: 0 <= j < |kb| && Hits(kb[j], moduleName, keyword) ==> kb[i].id <= kb[j].id
    ensures AnyHit(kb, moduleName, keyword) && FirstById(kb, moduleName, keyword) == kb[i]
  {
    var r := FirstById(kb, moduleName, keyword);
    var j :| 0 <= j < |kb| && kb[j] == r;
    assert kb[j].id == kb[i].id;
  }
}
