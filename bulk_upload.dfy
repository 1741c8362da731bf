/** `BulkUpload`: a batch of attachments built from the files an editor
    uploads, matched against the attachments the edition already has, and
    then validated and committed to the edition as one. */
module BulkUploads {
  import opened Wrappers
  import opened Seqs
  import opened FilePaths

  /** An attachment: its database id once saved, its title, and the name of
      its file (what `Attachment#filename` reports). */
  datatype Attachment = Attachment(id: Option<nat>, title: Option<string>, filename: Option<string>)

  /** One element of `params[:attachments]`: the attributes given for an
      attachment, with `attachment_data_attributes[:file]` as the path of
      the file, if any. */
  datatype Entry = Entry(title: Option<string>, file: Option<string>)

  /** The base error added when some attachment is invalid. */
  const MissingFieldsMessage: string := "Please enter missing fields for each attachment"

  /** Not yet saved: `new_record?`. */
  predicate IsNew(a: Attachment) {
    a.id.None?
  }

  /** The name an entry's file gets once stored: `File.basename(file)`. */
  function FileName(e: Entry): Option<string> {
    if e.file.Some? then Some(Basename(e.file.value)) else None
  }

  /** `with_filename(name).first`: the position of the first attachment
      carrying that file name, if any. */
  function FirstWithFilename(existing: seq<Attachment>, name: string): (r: Option<nat>)
    ensures r.Some? ==> r.value < |existing| && existing[r.value].filename == Some(name)
    ensures r.Some? ==> forall j :: 0 <= j < r.value ==> existing[j].filename != Some(name)
    ensures r.None? <==> forall j :: 0 <= j < |existing| ==> existing[j].filename != Some(name)
  {
    if existing == [] then None
    else if existing[0].filename == Some(name) then Some(0)
    else
      var rest := existing[1..];
      match FirstWithFilename(rest, name)
      case None =>
        assert forall j :: 1 <= j < |existing| ==> existing[j] == rest[j - 1];
        None
      case Some(k) =>
        assert forall j :: 1 <= j < k + 1 ==> existing[j] == rest[j - 1];
        Some(k + 1)
  }

  /** `Attachment.new(attachment_params)`: a fresh, unsaved attachment. */
  function Build(e: Entry): (a: Attachment)
    ensures IsNew(a) && a.title == e.title && a.filename == FileName(e)
  {
    Attachment(None, e.title, FileName(e))
  }

  /** The existing attachment an entry stands for, if it brings a file
      whose name one of them already carries. */
  function Match(existing: seq<Attachment>, e: Entry): (m: Option<nat>)
    ensures m.Some? ==>
      (e.file.Some? && m.value < |existing| && existing[m.value].filename == Some(Basename(e.file.value)))
    ensures m.None? <==>
      (e.file.None? || forall j :: 0 <= j < |existing| ==> existing[j].filename != Some(Basename(e.file.value)))
  {
    if e.file.Some? then FirstWithFilename(existing, Basename(e.file.value)) else None
  }

  /** One step of the `map` in `initialize`: an entry with a file resolves
      through `first_or_initialize`, which returns the first existing
      attachment of that file name as it is, or builds a new one; an entry
      without a file always builds a new one. */
  function Resolve(existing: seq<Attachment>, e: Entry): (a: Attachment)
    ensures a.filename == FileName(e)
    ensures Match(existing, e).Some? ==> a == existing[Match(existing, e).value]
    ensures Match(existing, e).None? ==> a == Build(e)
    ensures !IsNew(a) ==> a in existing
  {
    match Match(existing, e)
    case Some(i) => existing[i]
    case None => Build(e)
  }

  /** `@attachments` as `initialize` builds it. */
  function Reconcile(existing: seq<Attachment>, entries: seq<Entry>): (r: seq<Attachment>)
    ensures |r| == |entries|
    ensures forall i :: 0 <= i < |r| ==> r[i].filename == FileName(entries[i])
    ensures forall i :: 0 <= i < |r| ==> !IsNew(r[i]) ==> r[i] in existing
  {
    seq(|entries|, i requires 0 <= i < |entries| => Resolve(existing, entries[i]))
  }

  /** The number of entries no existing attachment stands for. */
  function CountUnmatched(existing: seq<Attachment>, entries: seq<Entry>): (n: nat)
    ensures n <= |entries|
  {
    if entries == [] then 0
    else (if Match(existing, entries[0]).None? then 1 else 0) + CountUnmatched(existing, entries[1..])
  }

  /** Saved attachments: every one has an id below next, and no two share
      one. */
  predicate Persisted(coll: seq<Attachment>, next: nat) {
    (forall i :: 0 <= i < |coll| ==> coll[i].id.Some? && coll[i].id.value < next)
    && (forall i, j :: 0 <= i < j < |coll| ==> coll[i].id != coll[j].id)
  }

  lemma ReconcileCons(existing: seq<Attachment>, entries: seq<Entry>)
    requires entries != []
    ensures Reconcile(existing, entries) == [Resolve(existing, entries[0])] + Reconcile(existing, entries[1..])
  {
    var r := Reconcile(existing, entries);
    var t := Reconcile(existing, entries[1..]);
    var want := [Resolve(existing, entries[0])] + t;
    forall i | 0 <= i < |r|
      ensures r[i] == want[i]
    {
      if i > 0 {
        assert entries[1..][i - 1] == entries[i];
      }
    }
  }

  /** Against saved attachments, an entry resolves to a new record exactly
      when no existing attachment stands for it. */
  lemma ResolveNew(existing: seq<Attachment>, next: nat, e: Entry)
    requires Persisted(existing, next)
    ensures IsNew(Resolve(existing, e)) <==> Match(existing, e).None?
  {
    if Match(existing, e).Some? {
      assert existing[Match(existing, e).value].id.Some?;
    }
  }

  /** Reconciling against saved attachments builds exactly one new record
      per unmatched entry. */
  lemma {:induction false} ReconcileNewRecords(existing: seq<Attachment>, next: nat, entries: seq<Entry>)
    requires Persisted(existing, next)
    ensures |Filter(Reconcile(existing, entries), IsNew)| == CountUnmatched(existing, entries)
    decreases |entries|
  {
    if entries != [] {
      var a := Resolve(existing, entries[0]);
      ReconcileCons(existing, entries);
      FilterCons(a, Reconcile(existing, entries[1..]), IsNew);
      ResolveNew(existing, next, entries[0]);
      ReconcileNewRecords(existing, next, entries[1..]);
    }
  }

  /** An entry for each path, as `from_files` builds them: no title, just
      the file. */
  function FileEntries(paths: seq<string>): (es: seq<Entry>)
    ensures |es| == |paths|
    ensures forall i :: 0 <= i < |es| ==> es[i] == Entry(None, Some(paths[i]))
  {
    seq(|paths|, i requires 0 <= i < |paths| => Entry(None, Some(paths[i])))
  }

  /** `from_files`: one attachment per path, in order, each carrying the
      base name of its path; it is an existing attachment exactly when one
      already carries that name. */
  lemma FromFilesAttachments(existing: seq<Attachment>, next: nat, paths: seq<string>)
    requires Persisted(existing, next)
    ensures |Reconcile(existing, FileEntries(paths))| == |paths|
    ensures forall i :: 0 <= i < |paths| ==>
      Reconcile(existing, FileEntries(paths))[i].filename == Some(Basename(paths[i]))
    ensures forall i :: 0 <= i < |paths| ==>
      (IsNew(Reconcile(existing, FileEntries(paths))[i]) <==>
       forall j :: 0 <= j < |existing| ==> existing[j].filename != Some(Basename(paths[i])))
  {
    var r := Reconcile(existing, FileEntries(paths));
    forall i | 0 <= i < |paths|
      ensures IsNew(r[i]) <==> forall j :: 0 <= j < |existing| ==> existing[j].filename != Some(Basename(paths[i]))
    {
      var e := FileEntries(paths)[i];
      assert r[i] == Resolve(existing, e);
      var m := Match(existing, e);
      if m.Some? {
        assert existing[m.value].id.Some?;
      }
    }
  }

  /** The records given to `edition.attachments <<` with ids handed out in
      order from next. */
  function Stamp(rs: seq<Attachment>, next: nat): (r: seq<Attachment>)
    ensures |r| == |rs|
    ensures forall i :: 0 <= i < |r| ==> r[i] == rs[i].(id := Some(next + i))
  {
    seq(|rs|, i requires 0 <= i < |rs| => rs[i].(id := Some(next + i)))
  }

  /** Records numbered from next, appended to saved attachments whose ids
      lie below next, keep every id distinct and below the new next. */
  lemma StampPersisted(coll: seq<Attachment>, next: nat, rs: seq<Attachment>)
    requires Persisted(coll, next)
    ensures Persisted(coll + Stamp(rs, next), next + |rs|)
  {
    var all := coll + Stamp(rs, next);
    forall i, j | 0 <= i < j < |all|
      ensures all[i].id != all[j].id
    {
      if j >= |coll| {
        assert all[j].id == Some(next + j - |coll|);
        if i >= |coll| {
          assert all[i].id == Some(next + i - |coll|);
        }
      }
    }
  }

  lemma StampCons(a: Attachment, rs: seq<Attachment>, next: nat)
    ensures Stamp([a] + rs, next) == [a.(id := Some(next))] + Stamp(rs, next + 1)
  {
  }

  /** The edition's attachments, the next id to hand out, and the records
      as saved, after a commit. */
  datatype Committed = Committed(collection: seq<Attachment>, nextId: nat, saved: seq<Attachment>)

  /** `edition.attachments << records`: each unsaved record is inserted
      with the next id and appended; a saved record of the edition is
      updated in place and so neither appended nor renumbered. */
  function Commit(coll: seq<Attachment>, next: nat, rs: seq<Attachment>): (c: Committed)
    ensures |c.saved| == |rs|
    decreases |rs|
  {
    if rs == [] then Committed(coll, next, [])
    else if !IsNew(rs[0]) then
      var c := Commit(coll, next, rs[1..]);
      Committed(c.collection, c.nextId, [rs[0]] + c.saved)
    else
      var a := rs[0].(id := Some(next));
      var c := Commit(coll + [a], next + 1, rs[1..]);
      Committed(c.collection, c.nextId, [a] + c.saved)
  }

  /** A commit appends the unsaved records, numbered in order from next,
      and moves next past them. */
  lemma {:induction false} CommitAppendsNew(coll: seq<Attachment>, next: nat, rs: seq<Attachment>)
    ensures Commit(coll, next, rs).collection == coll + Stamp(Filter(rs, IsNew), next)
    ensures Commit(coll, next, rs).nextId == next + |Filter(rs, IsNew)|
    decreases |rs|
  {
    if rs != [] {
      var head := rs[0];
      var rest := rs[1..];
      var c := Commit(coll, next, rs);
      if !IsNew(head) {
        assert Filter(rs, IsNew) == Filter(rest, IsNew);
        CommitAppendsNew(coll, next, rest);
      } else {
        var a := head.(id := Some(next));
        var newRest := Filter(rest, IsNew);
        assert Filter(rs, IsNew) == [head] + newRest;
        CommitAppendsNew(coll + [a], next + 1, rest);
        assert c.collection == (coll + [a]) + Stamp(newRest, next + 1);
        StampCons(head, newRest, next);
        assert (coll + [a]) + Stamp(newRest, next + 1) == coll + ([a] + Stamp(newRest, next + 1));
      }
    }
  }

  /** Every record comes back saved; a record that already was comes back
      as it was, and the others differ only in their new id. */
  lemma {:induction false} CommitSavesAll(coll: seq<Attachment>, next: nat, rs: seq<Attachment>)
    ensures forall i :: 0 <= i < |rs| ==> !IsNew(Commit(coll, next, rs).saved[i])
    ensures forall i :: 0 <= i < |rs| ==> !IsNew(rs[i]) ==> Commit(coll, next, rs).saved[i] == rs[i]
    ensures forall i :: 0 <= i < |rs| ==> Commit(coll, next, rs).saved[i] == rs[i].(id := Commit(coll, next, rs).saved[i].id)
    decreases |rs|
  {
    if rs != [] {
      var rest := rs[1..];
      var c := Commit(coll, next, rs);
      if !IsNew(rs[0]) {
        CommitSavesAll(coll, next, rest);
        assert c.saved == [rs[0]] + Commit(coll, next, rest).saved;
      } else {
        var a := rs[0].(id := Some(next));
        CommitSavesAll(coll + [a], next + 1, rest);
        assert c.saved == [a] + Commit(coll + [a], next + 1, rest).saved;
      }
    }
  }

  /** A commit keeps the edition's attachments saved with distinct ids,
      provided the saved records given are the edition's own, and every
      record comes back as one of the edition's attachments. */
  lemma {:induction false} CommitKeepsPersisted(coll: seq<Attachment>, next: nat, rs: seq<Attachment>)
    requires Persisted(coll, next)
    requires forall i :: 0 <= i < |rs| ==> !IsNew(rs[i]) ==> rs[i] in coll
    ensures Persisted(Commit(coll, next, rs).collection, Commit(coll, next, rs).nextId)
    ensures forall i :: 0 <= i < |rs| ==> Commit(coll, next, rs).saved[i] in Commit(coll, next, rs).collection
    decreases |rs|
  {
    if rs != [] {
      var head := rs[0];
      var rest := rs[1..];
      assert forall i :: 1 <= i < |rs| ==> rs[i] == rest[i - 1];
      var c := Commit(coll, next, rs);
      if !IsNew(head) {
        CommitKeepsPersisted(coll, next, rest);
        CommitAppendsNew(coll, next, rest);
        var c' := Commit(coll, next, rest);
        assert c.saved == [head] + c'.saved;
        assert c'.collection[..|coll|] == coll;
      } else {
        var a := head.(id := Some(next));
        var coll' := coll + [a];
        assert Persisted(coll', next + 1);
        CommitKeepsPersisted(coll', next + 1, rest);
        CommitAppendsNew(coll', next + 1, rest);
        var c' := Commit(coll', next + 1, rest);
        assert c.saved == [a] + c'.saved;
        assert c'.collection[|coll|] == a;
        assert forall x :: x in coll ==> x in coll';
      }
    }
  }

  /** Committing records that are all saved changes nothing. */
  lemma {:induction false} CommitSaved(coll: seq<Attachment>, next: nat, rs: seq<Attachment>)
    requires forall i :: 0 <= i < |rs| ==> !IsNew(rs[i])
    ensures Commit(coll, next, rs) == Committed(coll, next, rs)
    decreases |rs|
  {
    if rs != [] {
      assert rs == [rs[0]] + rs[1..];
      CommitSaved(coll, next, rs[1..]);
    }
  }

  /** Committing the same batch a second time adds nothing. */
  lemma CommitTwice(coll: seq<Attachment>, next: nat, rs: seq<Attachment>)
    ensures var c := Commit(coll, next, rs);
      Commit(c.collection, c.nextId, c.saved) == c
  {
    var c := Commit(coll, next, rs);
    CommitSavesAll(coll, next, rs);
    CommitSaved(c.collection, c.nextId, c.saved);
  }

  /** The edition whose `attachments` association receives the batch. */
  class Edition {
    var attachments: seq<Attachment>
    var nextId: nat

    predicate Valid()
      reads this
    {
      Persisted(attachments, nextId)
    }

    constructor(attachments: seq<Attachment>, nextId: nat)
      requires Persisted(attachments, nextId)
      ensures Valid() && this.attachments == attachments && this.nextId == nextId
    {
      this.attachments := attachments;
      this.nextId := nextId;
    }

    /** `attachments << records`, returning the records as saved. */
    method Concat(records: seq<Attachment>) returns (saved: seq<Attachment>)
      requires Valid()
      requires forall i :: 0 <= i < |records| ==> !IsNew(records[i]) ==> records[i] in attachments
      modifies this
      ensures Valid()
      ensures var c := Commit(old(attachments), old(nextId), records);
        attachments == c.collection && nextId == c.nextId && saved == c.saved
      ensures forall i :: 0 <= i < |saved| ==> saved[i] in attachments
    {
      CommitKeepsPersisted(attachments, nextId, records);
      var c := Commit(attachments, nextId, records);
      attachments := c.collection;
      nextId := c.nextId;
      saved := c.saved;
    }
  }

  class BulkUpload {
    const edition: Edition
    /** `Attachment#valid?`, whose rules live in the Attachment model. */
    const attachmentValid: Attachment -> bool
    /** `@attachments`. */
    var attachments: seq<Attachment>
    /** `errors[:base]`. */
    var baseErrors: seq<string>

    /** The batch points only at attachments the edition really has. */
    predicate Valid()
      reads this, edition
    {
      edition.Valid()
      && forall i :: 0 <= i < |attachments| ==> !IsNew(attachments[i]) ==> attachments[i] in edition.attachments
    }

    predicate AllValid()
      reads this`attachments
    {
      forall i :: 0 <= i < |attachments| ==> attachmentValid(attachments[i])
    }

    /** `initialize(edition, params)`: a missing `:attachments` list stands
        for the empty one. */
    constructor(edition: Edition, attachmentValid: Attachment -> bool, params: Option<seq<Entry>>)
      requires edition.Valid()
      ensures Valid()
      ensures this.edition == edition && this.attachmentValid == attachmentValid
      ensures attachments == Reconcile(edition.attachments, if params.Some? then params.value else [])
      ensures baseErrors == []
    {
      this.edition := edition;
      this.attachmentValid := attachmentValid;
      attachments := Reconcile(edition.attachments, if params.Some? then params.value else []);
      baseErrors := [];
    }

    /** `from_files(edition, file_paths)`. */
    static method FromFiles(edition: Edition, attachmentValid: Attachment -> bool, paths: seq<string>)
      returns (b: BulkUpload)
      requires edition.Valid()
      ensures fresh(b) && b.Valid() && b.edition == edition && b.baseErrors == []
      ensures b.attachments == Reconcile(edition.attachments, FileEntries(paths))
    {
      b := new BulkUpload(edition, attachmentValid, Some(FileEntries(paths)));
    }

    /** `attachments_are_valid?`: adds the base error once, whatever the
        number of invalid attachments. */
    method AttachmentsAreValid()
      modifies this`baseErrors
      ensures baseErrors == old(baseErrors) + (if AllValid() then [] else [MissingFieldsMessage])
    {
      if !AllValid() {
        baseErrors := baseErrors + [MissingFieldsMessage];
      }
    }

    /** `valid?`: clears the errors and runs the one validation. */
    method IsValid() returns (ok: bool)
      modifies this`baseErrors
      ensures ok <==> AllValid()
      ensures baseErrors == if ok then [] else [MissingFieldsMessage]
    {
      baseErrors := [];
      AttachmentsAreValid();
      ok := baseErrors == [];
    }

    /** `save_attachments_to_edition`: when every attachment is valid the
        whole batch is committed to the edition; otherwise nothing is. */
    method SaveAttachmentsToEdition() returns (saved: bool)
      requires Valid()
      modifies this`baseErrors, this`attachments, edition
      ensures Valid()
      ensures saved <==> old(AllValid())
      ensures !saved ==>
        baseErrors == [MissingFieldsMessage] && attachments == old(attachments)
        && edition.attachments == old(edition.attachments) && edition.nextId == old(edition.nextId)
      ensures saved ==>
        var c := Commit(old(edition.attachments), old(edition.nextId), old(attachments));
        baseErrors == [] && attachments == c.saved
        && edition.attachments == c.collection && edition.nextId == c.nextId
    {
      var ok := IsValid();
      if ok {
        attachments := edition.Concat(attachments);
        saved := true;
      } else {
        saved := false;
      }
    }
  }

  /** A successful save adds one attachment to the edition for each entry
      that no existing attachment stands for, and keeps the rest. */
  lemma SaveAddsUnmatched(existing: seq<Attachment>, next: nat, entries: seq<Entry>)
    requires Persisted(existing, next)
    ensures var c := Commit(existing, next, Reconcile(existing, entries));
      |c.collection| == |existing| + CountUnmatched(existing, entries)
      && c.collection[..|existing|] == existing
  {
    ReconcileNewRecords(existing, next, entries);
    CommitAppendsNew(existing, next, Reconcile(existing, entries));
  }
}
