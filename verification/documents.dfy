/**
 * Document meta data: an id and the category and name taken from the
 * archive path of the document's file (`category/name` below a top-level
 * directory, as in `20_newsgroups/sci.space/61234`).
 */
module Documents {
  import opened Wrappers
  import opened Text

  datatype Document = Document(id: int, category: string, name: string)

  /** The parts of an archive path as Java's `split("/")` returns them. */
  function PathParts(path: string): (parts: seq<string>)
    ensures forall i | 0 <= i < |parts| :: '/' !in parts[i]
  {
    var parts := JavaSplit(path, '/');
    assert path != "" ==> parts == SplitAll(path, '/')[..|parts|];
    parts
  }

  /**
   * `new Document(id, path)`: the id is kept as given, the category is the
   * second `/`-separated part and the name the third; a path with fewer parts
   * raises ArrayIndexOutOfBoundsException.
   */
  function NewDocument(id: int, path: string): (r: Result<Document>)
    ensures r.Success? ==> r.value.id == id
    ensures r.Success? ==> '/' !in r.value.category && '/' !in r.value.name
    ensures r.Failure? ==> r.error == IndexOutOfBounds
  {
    var parts := PathParts(path);
    if |parts| < 3 then Failure(IndexOutOfBounds)
    else Success(Document(id, parts[1], parts[2]))
  }

  /** The path has a non-empty part at position two or later, which survives the removal of trailing empty parts. */
  predicate HasNamePart(path: string) {
    var all := SplitAll(path, '/');
    exists k | 2 <= k < |all| :: all[k] != ""
  }

  /** Construction succeeds exactly when the path has a non-empty third-or-later part. */
  lemma NewDocumentSucceeds(id: int, path: string)
    ensures NewDocument(id, path).Success? <==> HasNamePart(path)
  {
    var all := SplitAll(path, '/');
    var parts := PathParts(path);
    if path == "" {
      assert all == [""];
    } else {
      assert parts == DropTrailingEmpty(all);
      if HasNamePart(path) {
        var k :| 2 <= k < |all| && all[k] != "";
        assert k < |parts|;
      }
      if 3 <= |parts| {
        assert parts[|parts| - 1] != "" && parts[|parts| - 1] == all[|parts| - 1];
      }
    }
  }

  /**
   * For a path `root/category/name` followed by nothing or by further
   * `/`-separated parts, the category and name are the second and third parts.
   */
  lemma NewDocumentOfPath(id: int, root: string, category: string, name: string, rest: string)
    requires '/' !in root && '/' !in category && '/' !in name && name != ""
    requires rest == "" || rest[0] == '/'
    ensures NewDocument(id, root + "/" + category + "/" + name + rest) == Success(Document(id, category, name))
  {
    var path := root + "/" + category + "/" + name + rest;
    PathSplit(root, category, name, rest);
    var all := SplitAll(path, '/');
    assert HasNamePart(path) by { assert all[2] != ""; }
    NewDocumentSucceeds(id, path);
    var parts := PathParts(path);
    assert parts == all[..|parts|] by { assert parts == DropTrailingEmpty(all); }
  }

  lemma PathSplit(root: string, category: string, name: string, rest: string)
    requires '/' !in root && '/' !in category && '/' !in name
    requires rest == "" || rest[0] == '/'
    ensures var all := SplitAll(root + "/" + category + "/" + name + rest, '/');
      3 <= |all| && all[0] == root && all[1] == category && all[2] == name
  {
    var tail := name + rest;
    var middle := category + ['/'] + tail;
    assert root + "/" + category + "/" + name + rest == root + ['/'] + middle;
    SplitAllCons(root, '/', middle);
    SplitAllCons(category, '/', tail);
    NameFirst(name, rest);
  }

  lemma NameFirst(name: string, rest: string)
    requires '/' !in name
    requires rest == "" || rest[0] == '/'
    ensures var parts := SplitAll(name + rest, '/'); 0 < |parts| && parts[0] == name
  {
    if rest == "" {
      assert name + rest == name;
      SplitAllFree(name, '/');
    } else {
      assert name + rest == name + ['/'] + rest[1..];
      SplitAllCons(name, '/', rest[1..]);
    }
  }

  /** A path with at most one `/` has fewer than three parts. */
  lemma ShortPathFails(id: int, a: string, b: string)
    requires '/' !in a && '/' !in b
    ensures NewDocument(id, a).Failure?
    ensures NewDocument(id, a + "/" + b).Failure?
  {
    SplitAllFree(a, '/');
    SplitAllFree(b, '/');
    assert a + "/" + b == a + ['/'] + b;
    SplitAllCons(a, '/', b);
    NewDocumentSucceeds(id, a);
    NewDocumentSucceeds(id, a + "/" + b);
  }

  /** An empty name part is removed as trailing, so `root/category/` fails. */
  lemma EmptyNameFails(id: int, root: string, category: string)
    requires '/' !in root && '/' !in category
    ensures NewDocument(id, root + "/" + category + "/").Failure?
  {
    var path := root + "/" + category + "/";
    assert path == root + ['/'] + (category + ['/'] + "");
    SplitAllCons(root, '/', category + ['/'] + "");
    SplitAllCons(category, '/', "");
    SplitAllFree("", '/');
    NewDocumentSucceeds(id, path);
  }
}
