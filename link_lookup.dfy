/**
 * The `_traceback_/dynamiclinks/records` collection and its lookup by
 * path: an equality query limited to one document.
 */
module LinkLookup {
  import opened Wrappers

  /** A registered dynamic link (the display fields the core never reads are omitted). */
  datatype DynamicLink = DynamicLink(path: string, followLink: Option<string>)

  /** A document of the collection: its id and its data. */
  datatype LinkDoc = LinkDoc(id: string, data: DynamicLink)

  /** No document's path equals `linkPath` before position `k`. */
  predicate NoPathBefore(links: seq<LinkDoc>, linkPath: string, k: int)
    requires 0 <= k <= |links|
  {
    forall j :: 0 <= j < k ==> links[j].data.path != linkPath
  }

  /**
   * `findDynamicLinkByPath`: the first document, in store order, whose path
   * equals `linkPath` exactly; None when there is none.
   */
  function FindDynamicLinkByPath(links: seq<LinkDoc>, linkPath: string): (r: Option<LinkDoc>)
    ensures r.None? <==> forall d :: d in links ==> d.data.path != linkPath
    ensures r.Some? ==> r.value.data.path == linkPath
    ensures r.Some? ==> exists k :: 0 <= k < |links| && links[k] == r.value && NoPathBefore(links, linkPath, k)
  {
    if links == [] then None
    else if links[0].data.path == linkPath then
      assert NoPathBefore(links, linkPath, 0);
      Some(links[0])
    else
      var r := FindDynamicLinkByPath(links[1..], linkPath);
      assert forall d :: d in links <==> d == links[0] || d in links[1..];
      if r.Some? then
        var k :| 0 <= k < |links[1..]| && links[1..][k] == r.value && NoPathBefore(links[1..], linkPath, k);
        assert links[k + 1] == r.value;
        assert NoPathBefore(links, linkPath, k + 1) by {
          forall j | 0 <= j < k + 1
            ensures links[j].data.path != linkPath
          {
            if j > 0 {
              assert links[j] == links[1..][j - 1];
            }
          }
        }
        r
      else
        r
  }

  /** The lookup returns the record at the first position whose path matches. */
  lemma {:induction false} FindIsFirstMatch(links: seq<LinkDoc>, linkPath: string, k: nat)
    requires k < |links| && links[k].data.path == linkPath && NoPathBefore(links, linkPath, k)
    ensures FindDynamicLinkByPath(links, linkPath) == Some(links[k])
  {
    if k > 0 {
      assert links[0].data.path != linkPath;
      assert NoPathBefore(links[1..], linkPath, k - 1) by {
        forall j | 0 <= j < k - 1
          ensures links[1..][j].data.path != linkPath
        {
          assert links[1..][j] == links[j + 1];
        }
      }
      FindIsFirstMatch(links[1..], linkPath, k - 1);
    }
  }
}
