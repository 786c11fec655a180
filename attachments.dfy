/** The attachment store (src/js/attachments.js): an ordered list of photographed
    or uploaded documents, each with an identifier, its image as a data URL and
    the document type the guest chose for it. */
module Attachments {
  import opened Wrappers
  import opened Strings

  /** `DOCUMENT_TYPES`, the choices the type selector offers. */
  const DocumentTypes: seq<string> := ["idFront", "idBack", "passportPage", "visa", "otherDocument"]

  /** The type every new attachment starts with. */
  const DefaultType := "otherDocument"

  /** The MIME prefix `handleFileUpload` admits. */
  const ImagePrefix := "image/"

  /** An identifier; the source derives it from the clock and a random number, so
      here it is whatever the caller supplies. */
  type Id = string

  /** A file chosen in the upload control. */
  datatype File = File(name: string, mimeType: string)

  /** One stored attachment: a camera capture has no file. */
  datatype Entry = Entry(id: Id, file: Option<File>, dataUrl: string, kind: string)

  /** One element of `getAttachments()`. */
  datatype View = View(dataUrl: string, kind: string, labelText: string)

  /** `findIndex(a => a.id === id)`, with `None` for `-1`. */
  function FirstIndex(es: seq<Entry>, id: Id): (r: Option<nat>)
    ensures r.Some? ==> r.value < |es| && es[r.value].id == id
    ensures r.Some? ==> forall j :: 0 <= j < r.value ==> es[j].id != id
    ensures r.None? ==> forall j :: 0 <= j < |es| ==> es[j].id != id
    decreases |es|
  {
    if es == [] then None
    else if es[0].id == id then Some(0)
    else
      match FirstIndex(es[1..], id)
      case None => None
      case Some(k) => Some(k + 1)
  }

  /** The list after `removeAttachment(id)`. */
  function Removed(es: seq<Entry>, id: Id): seq<Entry> {
    match FirstIndex(es, id)
    case None => es
    case Some(k) => es[..k] + es[k + 1..]
  }

  /** The list after `updateAttachmentType(id, kind)`. */
  function Retyped(es: seq<Entry>, id: Id, kind: string): seq<Entry> {
    match FirstIndex(es, id)
    case None => es
    case Some(k) => es[k := es[k].(kind := kind)]
  }

  /** `getAttachments()`, with `label` the translation of the type. */
  function Views(es: seq<Entry>, translate: string -> string): seq<View> {
    seq(|es|, i requires 0 <= i < |es| => View(es[i].dataUrl, es[i].kind, translate(es[i].kind)))
  }

  /** Whether `handleFileUpload` reads the file. */
  predicate IsImage(f: File) {
    ImagePrefix <= f.mimeType
  }

  /** Cutting out position `k` removes that one entry and keeps the rest in order. */
  lemma CutKeepsOthers(es: seq<Entry>, k: nat)
    requires k < |es|
    ensures |es[..k] + es[k + 1..]| == |es| - 1
    ensures multiset(es[..k] + es[k + 1..]) + multiset{es[k]} == multiset(es)
    ensures Subseq(es[..k] + es[k + 1..], es)
  {
    var pre, post := es[..k], es[k + 1..];
    assert pre + ([es[k]] + post) == es;
    assert multiset(pre + post) + multiset{es[k]} == multiset(es) by {
      assert es == pre + [es[k]] + post;
    }
    assert Subseq(pre + post, es) by {
      SubseqRefl(post);
      SubseqSkip(es[k], post, post);
      SubseqPrepend(pre, post, [es[k]] + post);
    }
  }

  /** Removal deletes the first entry carrying the identifier and keeps the others
      in their order; without such an entry the list is unchanged. */
  lemma RemovedDeletesFirstMatch(es: seq<Entry>, id: Id)
    ensures FirstIndex(es, id).None? ==> Removed(es, id) == es
    ensures FirstIndex(es, id).Some? ==>
      var k := FirstIndex(es, id).value;
      && es[k].id == id
      && (forall j :: 0 <= j < k ==> es[j].id != id)
      && |Removed(es, id)| == |es| - 1
      && multiset(Removed(es, id)) + multiset{es[k]} == multiset(es)
      && Subseq(Removed(es, id), es)
  {
    if FirstIndex(es, id).Some? {
      CutKeepsOthers(es, FirstIndex(es, id).value);
    }
  }

  /** `FirstIndex` finds an entry exactly when one carries the identifier. */
  lemma FirstIndexFinds(es: seq<Entry>, id: Id)
    ensures FirstIndex(es, id).Some? <==> exists j :: 0 <= j < |es| && es[j].id == id
  {
  }

  /** Removing an attachment right after adding it restores the list, provided the
      new identifier is fresh. */
  lemma RemoveUndoesAdd(es: seq<Entry>, e: Entry)
    requires forall j :: 0 <= j < |es| ==> es[j].id != e.id
    ensures Removed(es + [e], e.id) == es
  {
    var all := es + [e];
    assert all[|es|].id == e.id;
    var k := FirstIndex(all, e.id).value;
    assert forall j :: 0 <= j < |es| ==> all[j].id != e.id;
    assert all[..k] == es;
  }

  /** Changing the type touches only the type of the first entry carrying the
      identifier, with no check that the new type is one of `DocumentTypes`; the
      identifiers, files and images of all entries stay as they were. */
  lemma RetypedChangesOnlyFirstMatch(es: seq<Entry>, id: Id, kind: string)
    ensures |Retyped(es, id, kind)| == |es|
    ensures forall i :: 0 <= i < |es| ==>
      var r := Retyped(es, id, kind);
      r[i].id == es[i].id && r[i].file == es[i].file && r[i].dataUrl == es[i].dataUrl
    ensures forall i :: 0 <= i < |es| ==>
      Retyped(es, id, kind)[i].kind == if FirstIndex(es, id) == Some(i) then kind else es[i].kind
  {
  }

  /** Any string is accepted as a type, even one the selector does not offer. */
  lemma RetypedAcceptsAnyType(es: seq<Entry>, id: Id, kind: string)
    requires kind !in DocumentTypes
    requires exists j :: 0 <= j < |es| && es[j].id == id
    ensures exists j :: 0 <= j < |es| && Retyped(es, id, kind)[j].kind == kind && kind !in DocumentTypes
  {
    var k := FirstIndex(es, id).value;
    RetypedChangesOnlyFirstMatch(es, id, kind);
    assert Retyped(es, id, kind)[k].kind == kind;
  }

  /** The projection keeps length and order, copies the image and the type and
      labels each entry with its translated type; a new attachment shows up last
      with the default type. */
  lemma ViewsProject(es: seq<Entry>, e: Entry, translate: string -> string)
    ensures |Views(es, translate)| == |es|
    ensures forall i :: 0 <= i < |es| ==>
      Views(es, translate)[i] == View(es[i].dataUrl, es[i].kind, translate(es[i].kind))
    ensures Views(es + [e], translate) == Views(es, translate) + [View(e.dataUrl, e.kind, translate(e.kind))]
  {
    assert Views(es + [e], translate)[..|es|] == Views(es, translate);
  }

  /** The store (`attachments`), updated in place. */
  class Store {
    var items: seq<Entry>

    constructor ()
      ensures items == []
    {
      items := [];
    }

    /** `addAttachment(file, dataUrl)` with `id` the identifier it draws. */
    method AddAttachment(id: Id, file: Option<File>, dataUrl: string) returns (r: Id)
      modifies this
      ensures r == id
      ensures items == old(items) + [Entry(id, file, dataUrl, DefaultType)]
    {
      items := items + [Entry(id, file, dataUrl, DefaultType)];
      r := id;
    }

    /** `removeAttachment(id)`. */
    method RemoveAttachment(id: Id)
      modifies this
      ensures items == Removed(old(items), id)
    {
      var index := FirstIndex(items, id);
      if index.Some? {
        items := items[..index.value] + items[index.value + 1..];
      }
    }

    /** `updateAttachmentType(id, kind)`. */
    method UpdateAttachmentType(id: Id, kind: string)
      modifies this
      ensures items == Retyped(old(items), id, kind)
    {
      var index := FirstIndex(items, id);
      if index.Some? {
        items := items[index.value := items[index.value].(kind := kind)];
      }
    }

    /** `getAttachments()`: a fresh list built from the store. */
    function GetAttachments(translate: string -> string): (vs: seq<View>)
      reads this
      ensures |vs| == |items|
      ensures forall i :: 0 <= i < |items| ==>
        vs[i].dataUrl == items[i].dataUrl && vs[i].kind == items[i].kind && vs[i].labelText == translate(items[i].kind)
    {
      Views(items, translate)
    }
  }

  /** The images among `files`, in the order given: the files
      `handleFileUpload(files)` goes on to read. */
  function Images(files: seq<File>): (r: seq<File>)
    ensures forall f :: f in r ==> IsImage(f)
    ensures |r| <= |files|
    decreases |files|
  {
    if files == [] then []
    else
      var r := Images(files[..|files| - 1]);
      var last := files[|files| - 1];
      if IsImage(last) then r + [last] else r
  }

  /** Every image is read as often as it was chosen, and no other file is read. */
  lemma {:induction false} ImagesCount(files: seq<File>)
    ensures forall f :: multiset(Images(files))[f] == if IsImage(f) then multiset(files)[f] else 0
    decreases |files|
  {
    if files != [] {
      var init, last := files[..|files| - 1], files[|files| - 1];
      ImagesCount(init);
      assert files == init + [last];
    }
  }

  /** The images are read in the order they were chosen. */
  lemma {:induction false} ImagesInOrder(files: seq<File>)
    ensures Subseq(Images(files), files)
    decreases |files|
  {
    if files != [] {
      var init, last := files[..|files| - 1], files[|files| - 1];
      ImagesInOrder(init);
      SubseqAppend(Images(init), init, last, IsImage(last));
      assert files == init + [last];
    }
  }

  /** `handleFileUpload(files)`: the files it goes on to read. */
  method HandleFileUpload(files: seq<File>) returns (admitted: seq<File>)
    ensures admitted == Images(files)
  {
    admitted := [];
    for i := 0 to |files|
      invariant admitted == Images(files[..i])
    {
      assert files[..i + 1][..i] == files[..i];
      if IsImage(files[i]) {
        admitted := admitted + [files[i]];
      }
    }
    assert files[..|files|] == files;
  }
}
