/**
 * The `_traceback_/installs/records` collection as a sequence of
 * documents with distinct ids; the sequence order is the order in which
 * the store returns documents to a query.
 */
module Records {
  import opened Wrappers
  import opened InstallTypes
  import Text

  datatype Doc = Doc(id: string, data: SavedDeviceHeuristics)

  predicate DistinctIds(docs: seq<Doc>) {
    forall i, j :: 0 <= i < j < |docs| ==> docs[i].id != docs[j].id
  }

  predicate HasId(docs: seq<Doc>, id: string) {
    exists i :: 0 <= i < |docs| && docs[i].id == id
  }

  /** `collection.doc(id).get()`: the document with that id, if it exists. */
  function FindById(docs: seq<Doc>, id: string): (r: Option<Doc>)
    ensures r.None? <==> !HasId(docs, id)
    ensures r.Some? ==> r.value in docs && r.value.id == id
  {
    if docs == [] then None
    else if docs[0].id == id then Some(docs[0])
    else
      assert HasId(docs[1..], id) ==> HasId(docs, id) by {
        if HasId(docs[1..], id) {
          var i :| 0 <= i < |docs[1..]| && docs[1..][i].id == id;
          assert docs[i + 1].id == id;
        }
      }
      FindById(docs[1..], id)
  }

  /** `collection.doc(id).delete()`: the document goes; deleting a missing id changes nothing. */
  function RemoveId(docs: seq<Doc>, id: string): (r: seq<Doc>)
    ensures forall d :: d in r <==> d in docs && d.id != id
    ensures |r| <= |docs|
    ensures DistinctIds(docs) ==> DistinctIds(r)
  {
    if docs == [] then []
    else if docs[0].id == id then RemoveId(docs[1..], id)
    else
      var rest := RemoveId(docs[1..], id);
      assert DistinctIds(docs) ==> DistinctIds([docs[0]] + rest) by {
        if DistinctIds(docs) {
          assert forall d :: d in rest ==> d in docs[1..];
          assert forall d :: d in docs[1..] ==> d.id != docs[0].id;
        }
      }
      [docs[0]] + rest
  }

  /** `collection.doc(id).set(data)`: the document with that id is replaced, or a new one is added. */
  function SetDoc(docs: seq<Doc>, id: string, data: SavedDeviceHeuristics): (r: seq<Doc>)
    ensures FindById(r, id) == Some(Doc(id, data))
    ensures forall d :: d in r && d.id != id <==> d in docs && d.id != id
    ensures DistinctIds(docs) ==> DistinctIds(r)
  {
    var rest := RemoveId(docs, id);
    assert DistinctIds(docs) ==> DistinctIds([Doc(id, data)] + rest) by {
      assert forall d :: d in rest ==> d.id != id;
    }
    [Doc(id, data)] + rest
  }

  /** With distinct ids, removing a present id removes exactly one document. */
  lemma {:induction false} RemoveIdCount(docs: seq<Doc>, id: string)
    requires DistinctIds(docs)
    ensures HasId(docs, id) ==> |RemoveId(docs, id)| == |docs| - 1
    ensures !HasId(docs, id) ==> RemoveId(docs, id) == docs
  {
    if docs != [] {
      assert DistinctIds(docs[1..]);
      RemoveIdCount(docs[1..], id);
      if docs[0].id == id {
        assert !HasId(docs[1..], id);
      } else {
        assert HasId(docs, id) ==> HasId(docs[1..], id);
        assert !HasId(docs, id) ==> !HasId(docs[1..], id) by {
          if HasId(docs[1..], id) {
            var i :| 0 <= i < |docs[1..]| && docs[1..][i].id == id;
            assert docs[i + 1].id == id;
          }
        }
      }
    }
  }
  /** The non-empty pieces of `parts`, in order. */
  function NonEmptyPieces(parts: seq<string>): (r: seq<string>)
    ensures forall p :: p in r ==> p in parts && p != ""
  {
    if parts == [] then []
    else (if parts[0] == "" then [] else [parts[0]]) + NonEmptyPieces(parts[1..])
  }

  /**
   * The segments the store reads in a slash-separated document path: the
   * pieces between `/`, with the empty ones (from a leading or trailing `/`)
   * dropped.
   */
  function PathSegments(path: string): (segs: seq<string>)
    ensures forall p :: p in segs ==> p != "" && '/' !in p
  {
    NonEmptyPieces(Text.Split(path, '/'))
  }

  /** What `collection.doc(path)` designates, for a path relative to this collection. */
  datatype DocRef =
    | RecordDoc(id: string)             // a document of this collection
    | NestedDoc(segments: seq<string>)  // a document of a sub-collection below a record
    | InvalidPath                       // the store's path check throws

  /**
   * `collection.doc(path)`: a path containing `//` is refused, and so is one
   * with an even number of segments (none included), since appended to the
   * three segments of the collection it names a collection, not a document.
   * A single segment is a record id.
   */
  function ResolveDocPath(path: string): (r: DocRef)
    ensures r.InvalidPath? <==> Text.Contains(path, "//") || |PathSegments(path)| % 2 == 0
    ensures r.RecordDoc? <==> !Text.Contains(path, "//") && |PathSegments(path)| == 1
    ensures r.RecordDoc? ==> r.id == PathSegments(path)[0]
  {
    var segs := PathSegments(path);
    if Text.Contains(path, "//") || |segs| % 2 == 0 then InvalidPath
    else if |segs| == 1 then RecordDoc(segs[0])
    else NestedDoc(segs)
  }

  /** A string with no two adjacent `/` does not contain `//`. */
  lemma NoDoubleSlash(s: string)
    requires forall i :: 0 <= i < |s| - 1 ==> s[i] != '/' || s[i + 1] != '/'
    ensures !Text.Contains(s, "//")
  {
    forall i | 0 <= i <= |s| - 2
      ensures !Text.OccursAt(s, "//", i)
    {
      assert s[i..i + 2][0] == s[i] && s[i..i + 2][1] == s[i + 1];
    }
  }

  /** A plain id designates the record with that id, also with a leading or a trailing `/`. */
  lemma PlainIdIsRecord(id: string)
    requires id != "" && '/' !in id
    ensures ResolveDocPath(id) == RecordDoc(id)
    ensures ResolveDocPath("/" + id) == RecordDoc(id)
    ensures ResolveDocPath(id + "/") == RecordDoc(id)
  {
    NoDoubleSlash(id);
    assert Text.Split(id, '/') == [id];
    assert NonEmptyPieces([id]) == [id];

    var lead := "/" + id;
    assert forall i :: 0 < i < |lead| ==> lead[i] == id[i - 1];
    NoDoubleSlash(lead);
    Text.IndexOfAfterPrefix("", '/', id);
    assert lead == "" + ['/'] + id;
    Text.SplitStep(lead, '/');
    assert lead[1..] == id;
    assert Text.Split(lead, '/') == ["", id];
    assert NonEmptyPieces(["", id]) == [id] by {
      assert ["", id][1..] == [id];
    }

    var trail := id + "/";
    assert forall i :: 0 <= i < |id| ==> trail[i] == id[i];
    NoDoubleSlash(trail);
    Text.IndexOfAfterPrefix(id, '/', "");
    assert trail == id + ['/'] + "";
    Text.SplitStep(trail, '/');
    assert trail[..|id|] == id && trail[|id| + 1..] == "";
    assert Text.Split("", '/') == [""];
    assert Text.Split(trail, '/') == [id, ""];
    assert NonEmptyPieces([id, ""]) == [id] by {
      assert [id, ""][1..] == [""];
      assert NonEmptyPieces([""]) == [] by { assert [""][1..] == []; }
    }
  }

  /** Two segments name a collection, so `a/b` is refused; `a//b` is refused outright. */
  lemma TwoSegmentsInvalid(a: string, b: string)
    requires a != "" && b != "" && '/' !in a && '/' !in b
    ensures ResolveDocPath(a + "/" + b) == InvalidPath
    ensures ResolveDocPath(a + "//" + b) == InvalidPath
  {
    var s := a + "/" + b;
    Text.IndexOfAfterPrefix(a, '/', b);
    assert s == a + ['/'] + b;
    Text.SplitStep(s, '/');
    assert s[..|a|] == a && s[|a| + 1..] == b;
    assert Text.Split(b, '/') == [b];
    assert Text.Split(s, '/') == [a, b];
    assert NonEmptyPieces([a, b]) == [a, b] by {
      assert [a, b][1..] == [b];
      assert NonEmptyPieces([b]) == [b] by { assert [b][1..] == []; }
    }

    var t := a + "//" + b;
    assert t[|a|..|a| + 2] == "//";
    assert Text.OccursAt(t, "//", |a|);
  }
}
