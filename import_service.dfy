/** The member sync of src/Services/ImportService.php: the uploaded file is
    authoritative for one organisation. Every valid row is upserted by its
    lookup hash, every current member whose hash is not in the file is
    deleted, and the additions, flag changes and deletions are counted.
    Database failures of single statements are inputs: the lookup hashes
    whose upsert or delete throws, with the exception message. */
module ImportService {
  import opened Php
  import opened EmailHasher
  import opened Members
  import opened ImportRows

  datatype SyncResult = SyncResult(imported: nat, added: nat, updated: nat, deleted: nat, errors: seq<string>)

  // ----- What the sync computes, as sets of lookup hashes -----

  /** File hashes that were not current members and whose upsert succeeded. */
  function AddedSet(file: map<string, FileEntry>, current: map<string, Member>,
                    upsertFailures: map<string, string>): set<string> {
    set h | h in file && h !in current && h !in upsertFailures
  }

  /** File hashes that were current members with a different flag and whose
      upsert succeeded. */
  function UpdatedSet(file: map<string, FileEntry>, current: map<string, Member>,
                      upsertFailures: map<string, string>): set<string> {
    set h | h in file && h in current && h !in upsertFailures && current[h].mmCepi != file[h].mmCepi
  }

  /** Current members absent from the file whose delete succeeded. */
  function DeletedSet(file: map<string, FileEntry>, current: map<string, Member>,
                      deleteFailures: map<string, string>): set<string> {
    set h | h in current && h !in file && h !in deleteFailures
  }

  /** Current members absent from the file whose delete threw. */
  function FailedDeletes(file: map<string, FileEntry>, current: map<string, Member>,
                         deleteFailures: map<string, string>): set<string> {
    set h | h in current && h !in file && h in deleteFailures
  }

  const UpsertErrorPrefix: string := "Email "
  const UpsertErrorInfix: string := ": Database fout - "
  const DeleteErrorPrefix: string := "Kon lid niet verwijderen - "

  /** "Email <address>: Database fout - <exception message>" */
  function UpsertError(e: FileEntry, exception: string): string {
    UpsertErrorPrefix + e.email + UpsertErrorInfix + exception
  }

  /** "Kon lid niet verwijderen - <exception message>" */
  function DeleteError(exception: string): string {
    DeleteErrorPrefix + exception
  }

  /** The messages of the second loop: one per failed upsert, in the order
      the hashes are visited. */
  function UpsertErrors(order: seq<string>, file: map<string, FileEntry>,
                        upsertFailures: map<string, string>): (errors: seq<string>)
    ensures |errors| <= |order|
  {
    if order == [] then []
    else
      var n := |order| - 1;
      var h := order[n];
      UpsertErrors(order[..n], file, upsertFailures)
      + (if h in file && h in upsertFailures then [UpsertError(file[h], upsertFailures[h])] else [])
  }

  /** The messages of the third loop: one per current member absent from
      the file whose delete throws, in the order the members are visited. */
  function DeleteErrors(order: seq<string>, file: map<string, FileEntry>,
                        deleteFailures: map<string, string>): (errors: seq<string>)
    ensures |errors| <= |order|
  {
    if order == [] then []
    else
      var n := |order| - 1;
      var h := order[n];
      DeleteErrors(order[..n], file, deleteFailures)
      + (if h !in file && h in deleteFailures then [DeleteError(deleteFailures[h])] else [])
  }

  /** How many elements of `order` lie in `s`. */
  function CountIn(order: seq<string>, s: set<string>): nat {
    if order == [] then 0
    else CountIn(order[..|order| - 1], s) + (if order[|order| - 1] in s then 1 else 0)
  }

  /** The elements of `order` that lie in `s`. */
  function Among(order: seq<string>, s: set<string>): set<string> {
    set h | h in order && h in s
  }

  predicate Distinct(order: seq<string>) {
    forall i, j :: 0 <= i < j < |order| ==> order[i] != order[j]
  }

  /** hs lists the elements of s, each once. */
  ghost predicate Enumerates(hs: seq<string>, s: set<string>) {
    Distinct(hs) && forall h :: h in hs <==> h in s
  }

  lemma AmongStep(order: seq<string>, j: nat, s: set<string>)
    requires j < |order|
    ensures Among(order[..j + 1], s) == Among(order[..j], s) + (if order[j] in s then {order[j]} else {})
    ensures order[..j + 1][..j] == order[..j] && order[..j + 1][j] == order[j]
  {
    assert forall x :: x in order[..j + 1] <==> x in order[..j] || x == order[j];
  }

  /** Counting the distinct elements that lie in `s` gives the size of the
      set they form. */
  lemma {:induction false} CountInDistinct(order: seq<string>, s: set<string>)
    requires Distinct(order)
    ensures CountIn(order, s) == |Among(order, s)|
    decreases |order|
  {
    if order != [] {
      var n := |order| - 1;
      var h := order[n];
      CountInDistinct(order[..n], s);
      AmongStep(order, n, s);
      assert order[..n + 1] == order;
      assert h !in order[..n];
    }
  }

  // ----- The loops' running state over a prefix of the visiting order -----

  /** The hashes among `order` whose upsert succeeded. */
  function Upserted(order: seq<string>, upsertFailures: map<string, string>): set<string> {
    if order == [] then {}
    else
      var n := |order| - 1;
      Upserted(order[..n], upsertFailures) + (if order[n] !in upsertFailures then {order[n]} else {})
  }

  /** The second loop's `$added` after visiting `order`. */
  function AddedCount(order: seq<string>, current: map<string, Member>, upsertFailures: map<string, string>): nat {
    if order == [] then 0
    else
      var n := |order| - 1;
      AddedCount(order[..n], current, upsertFailures)
      + (if order[n] !in current && order[n] !in upsertFailures then 1 else 0)
  }

  /** The second loop's `$updated` after visiting `order`. */
  function UpdatedCount(order: seq<string>, file: map<string, FileEntry>, current: map<string, Member>,
                        upsertFailures: map<string, string>): nat {
    if order == [] then 0
    else
      var n := |order| - 1;
      var h := order[n];
      UpdatedCount(order[..n], file, current, upsertFailures)
      + (if h in file && h in current && h !in upsertFailures && current[h].mmCepi != file[h].mmCepi then 1 else 0)
  }

  /** The hashes among `order` that the third loop deletes. */
  function Deleted(order: seq<string>, file: map<string, FileEntry>, deleteFailures: map<string, string>): set<string> {
    if order == [] then {}
    else
      var n := |order| - 1;
      var h := order[n];
      Deleted(order[..n], file, deleteFailures) + (if h !in file && h !in deleteFailures then {h} else {})
  }

  /** The third loop's `$deleted` after visiting `order`. */
  function DeletedCount(order: seq<string>, file: map<string, FileEntry>, deleteFailures: map<string, string>): nat {
    if order == [] then 0
    else
      var n := |order| - 1;
      var h := order[n];
      DeletedCount(order[..n], file, deleteFailures) + (if h !in file && h !in deleteFailures then 1 else 0)
  }

  // ----- The table after the sync -----

  /** The rows after upserting the file entries of the hashes in `done`:
      each such row exists, is active and carries the file's ciphertext and
      flag; every other row is as before. */
  function UpsertedRows(rows: map<(int, string), Member>, org: int,
                        file: map<string, FileEntry>, done: set<string>): (r: map<(int, string), Member>)
    ensures forall k :: k in r <==> k in rows || (k.0 == org && k.1 in done && k.1 in file)
  {
    map k | k in rows.Keys + (set h | h in done && h in file :: (org, h)) ::
      if k.0 == org && k.1 in done && k.1 in file then Member(file[k.1].emailHash, file[k.1].mmCepi, true) else rows[k]
  }

  /** The rows after deleting the organisation's rows with the hashes in `gone`. */
  function RemovedRows(rows: map<(int, string), Member>, org: int, gone: set<string>): (r: map<(int, string), Member>)
    ensures forall k :: k in r <==> k in rows && !(k.0 == org && k.1 in gone)
  {
    map k | k in rows.Keys && !(k.0 == org && k.1 in gone) :: rows[k]
  }

  /** The table after a sync: the successful upserts applied, then the
      successful deletions. */
  function SyncedRows(rows: map<(int, string), Member>, org: int, file: map<string, FileEntry>,
                      upsertFailures: map<string, string>, deleteFailures: map<string, string>): map<(int, string), Member> {
    RemovedRows(UpsertedRows(rows, org, file, file.Keys - upsertFailures.Keys), org,
                DeletedSet(file, CurrentEmails(rows, org), deleteFailures))
  }

  lemma UpsertStep(rows: map<(int, string), Member>, org: int, file: map<string, FileEntry>,
                   done: set<string>, h: string)
    requires h in file
    ensures UpsertedRows(rows, org, file, done)[(org, h) := Member(file[h].emailHash, file[h].mmCepi, true)]
            == UpsertedRows(rows, org, file, done + {h})
  {
    var a := UpsertedRows(rows, org, file, done)[(org, h) := Member(file[h].emailHash, file[h].mmCepi, true)];
    var b := UpsertedRows(rows, org, file, done + {h});
    assert forall k :: k in a <==> k in b;
    assert forall k :: k in a ==> a[k] == b[k];
  }

  /** Upserting nothing changes nothing. */
  lemma UpsertNone(rows: map<(int, string), Member>, org: int, file: map<string, FileEntry>)
    ensures UpsertedRows(rows, org, file, {}) == rows
  {
  }

  /** Removing nothing changes nothing. */
  lemma RemoveNone(rows: map<(int, string), Member>, org: int)
    ensures RemovedRows(rows, org, {}) == rows
  {
  }

  lemma RemoveStep(rows: map<(int, string), Member>, org: int, gone: set<string>, h: string)
    ensures RemovedRows(rows, org, gone) - {(org, h)} == RemovedRows(rows, org, gone + {h})
  {
    var a := RemovedRows(rows, org, gone) - {(org, h)};
    var b := RemovedRows(rows, org, gone + {h});
    assert forall k :: k in a <==> k in b;
  }



  /** One step of the second loop in terms of its running state: visiting
      order[j] adds its upsert to the rows and its contribution to the
      counters and the messages. */
  lemma UpsertVisit(file: map<string, FileEntry>, order: seq<string>, j: nat, current: map<string, Member>,
                    upsertFailures: map<string, string>)
    requires j < |order| && order[j] in file
    ensures var h := order[j];
      && Upserted(order[..j + 1], upsertFailures)
         == (if h in upsertFailures then Upserted(order[..j], upsertFailures) else Upserted(order[..j], upsertFailures) + {h})
      && AddedCount(order[..j + 1], current, upsertFailures)
         == AddedCount(order[..j], current, upsertFailures) + (if h !in current && h !in upsertFailures then 1 else 0)
      && UpdatedCount(order[..j + 1], file, current, upsertFailures)
         == UpdatedCount(order[..j], file, current, upsertFailures)
            + (if h in current && h !in upsertFailures && current[h].mmCepi != file[h].mmCepi then 1 else 0)
      && UpsertErrors(order[..j + 1], file, upsertFailures)
         == UpsertErrors(order[..j], file, upsertFailures)
            + (if h in upsertFailures then [UpsertError(file[h], upsertFailures[h])] else [])
  {
    var h := order[j];
    assert order[..j + 1][..j] == order[..j] && order[..j + 1][j] == h;
  }

  lemma {:induction false} DeletedOnlyVisited(order: seq<string>, file: map<string, FileEntry>,
                                              deleteFailures: map<string, string>, h: string)
    requires h !in order
    ensures h !in Deleted(order, file, deleteFailures)
    decreases |order|
  {
    if order != [] {
      var n := |order| - 1;
      assert forall x :: x in order[..n] ==> x in order;
      DeletedOnlyVisited(order[..n], file, deleteFailures, h);
    }
  }

  /** One step of the third loop in terms of its running state. */
  lemma DeleteVisit(rows: map<(int, string), Member>, org: int, file: map<string, FileEntry>,
                    order: seq<string>, j: nat, deleteFailures: map<string, string>)
    requires j < |order| && Distinct(order)
    ensures var h := order[j];
      && h !in Deleted(order[..j], file, deleteFailures)
      && (h !in file && h !in deleteFailures ==>
            RemovedRows(rows, org, Deleted(order[..j], file, deleteFailures)) - {(org, h)}
            == RemovedRows(rows, org, Deleted(order[..j + 1], file, deleteFailures)))
      && (h in file || h in deleteFailures ==>
            RemovedRows(rows, org, Deleted(order[..j], file, deleteFailures))
            == RemovedRows(rows, org, Deleted(order[..j + 1], file, deleteFailures)))
      && DeletedCount(order[..j + 1], file, deleteFailures)
         == DeletedCount(order[..j], file, deleteFailures) + (if h !in file && h !in deleteFailures then 1 else 0)
      && DeleteErrors(order[..j + 1], file, deleteFailures)
         == DeleteErrors(order[..j], file, deleteFailures)
            + (if h !in file && h in deleteFailures then [DeleteError(deleteFailures[h])] else [])
  {
    var h := order[j];
    assert order[..j + 1][..j] == order[..j] && order[..j + 1][j] == h;
    DeletedOnlyVisited(order[..j], file, deleteFailures, h);
    if h !in file && h !in deleteFailures {
      RemoveStep(rows, org, Deleted(order[..j], file, deleteFailures), h);
    }
  }

  /** The running state of the second loop, read as sets: the upserted
      hashes, and the counters as the number of elements of `order` in the
      added and updated sets. */
  lemma {:induction false} UpsertPrefixAsSets(order: seq<string>, file: map<string, FileEntry>,
                                              current: map<string, Member>, upsertFailures: map<string, string>)
    requires forall h :: h in order ==> h in file
    ensures Upserted(order, upsertFailures) == Among(order, file.Keys - upsertFailures.Keys)
    ensures AddedCount(order, current, upsertFailures) == CountIn(order, AddedSet(file, current, upsertFailures))
    ensures UpdatedCount(order, file, current, upsertFailures) == CountIn(order, UpdatedSet(file, current, upsertFailures))
    decreases |order|
  {
    if order != [] {
      var n := |order| - 1;
      assert forall x :: x in order[..n] ==> x in order;
      UpsertPrefixAsSets(order[..n], file, current, upsertFailures);
      AmongStep(order, n, file.Keys - upsertFailures.Keys);
      assert order[..n + 1] == order;
    }
  }

  /** The running state of the third loop, read as sets. */
  lemma {:induction false} DeletePrefixAsSets(order: seq<string>, file: map<string, FileEntry>,
                                              current: map<string, Member>, deleteFailures: map<string, string>)
    requires forall h :: h in order ==> h in current
    ensures Deleted(order, file, deleteFailures) == Among(order, DeletedSet(file, current, deleteFailures))
    ensures DeletedCount(order, file, deleteFailures) == CountIn(order, DeletedSet(file, current, deleteFailures))
    decreases |order|
  {
    if order != [] {
      var n := |order| - 1;
      assert forall x :: x in order[..n] ==> x in order;
      DeletePrefixAsSets(order[..n], file, current, deleteFailures);
      AmongStep(order, n, DeletedSet(file, current, deleteFailures));
      assert order[..n + 1] == order;
    }
  }

  /** Once every file entry has been visited, the successful upserts are
      the file's hashes minus the failures, and the counters hold the sizes
      of the added and updated sets. */
  lemma UpsertTotals(order: seq<string>, file: map<string, FileEntry>, current: map<string, Member>,
                     upsertFailures: map<string, string>)
    requires Enumerates(order, file.Keys)
    ensures Upserted(order, upsertFailures) == file.Keys - upsertFailures.Keys
    ensures AddedCount(order, current, upsertFailures) == |AddedSet(file, current, upsertFailures)|
    ensures UpdatedCount(order, file, current, upsertFailures) == |UpdatedSet(file, current, upsertFailures)|
  {
    UpsertPrefixAsSets(order, file, current, upsertFailures);
    var addedSet := AddedSet(file, current, upsertFailures);
    var updatedSet := UpdatedSet(file, current, upsertFailures);
    assert Among(order, addedSet) == addedSet;
    assert Among(order, updatedSet) == updatedSet;
    CountInDistinct(order, addedSet);
    CountInDistinct(order, updatedSet);
  }

  /** Once every current member has been visited, the deleted hashes are
      the deleted set and the counter holds its size. */
  lemma DeleteTotals(order: seq<string>, file: map<string, FileEntry>, current: map<string, Member>,
                     deleteFailures: map<string, string>)
    requires Enumerates(order, current.Keys)
    ensures Deleted(order, file, deleteFailures) == DeletedSet(file, current, deleteFailures)
    ensures DeletedCount(order, file, deleteFailures) == |DeletedSet(file, current, deleteFailures)|
  {
    DeletePrefixAsSets(order, file, current, deleteFailures);
    CountInDistinct(order, DeletedSet(file, current, deleteFailures));
  }

  // ----- processSyncImport, loop by loop -----

  /** The first loop: every row classified; valid rows collected under
      their lookup hash (in PHP's insertion order), bad rows as errors. */
  method ClassifyAll(c: Crypto, cfg: Option<string>, isEmail: string -> bool,
                     ivs: seq<string>, data: seq<map<string, string>>)
    returns (valid: map<string, FileEntry>, order: seq<string>, errors: seq<string>)
    requires |ivs| == |data|
    ensures valid == FileMap(Outcomes(c, cfg, isEmail, ivs, data))
    ensures order == KeyOrder(Outcomes(c, cfg, isEmail, ivs, data))
    ensures errors == RowErrors(Outcomes(c, cfg, isEmail, ivs, data))
  {
    ghost var outs := Outcomes(c, cfg, isEmail, ivs, data);
    valid, order, errors := map[], [], [];
    var i := 0;
    while i < |data|
      invariant 0 <= i <= |data|
      invariant valid == FileMap(outs[..i])
      invariant order == KeyOrder(outs[..i])
      invariant errors == RowErrors(outs[..i])
    {
      var o := ClassifyRow(c, cfg, isEmail, ivs[i], data[i], i);
      valid, order, errors := Absorb(valid, order, errors, outs, i, o);
      i := i + 1;
    }
    assert outs[..i] == outs;
  }

  /** The first loop's body for one classified row: an invalid row adds its
      message, a valid one is stored under its lookup hash, which joins the
      key order the first time it is seen. */
  method Absorb(valid: map<string, FileEntry>, order: seq<string>, errors: seq<string>,
                ghost outs: seq<RowOutcome>, ghost i: nat, o: RowOutcome)
    returns (valid': map<string, FileEntry>, order': seq<string>, errors': seq<string>)
    requires i < |outs| && o == outs[i]
    requires valid == FileMap(outs[..i]) && order == KeyOrder(outs[..i]) && errors == RowErrors(outs[..i])
    ensures valid' == FileMap(outs[..i + 1]) && order' == KeyOrder(outs[..i + 1]) && errors' == RowErrors(outs[..i + 1])
  {
    PrefixStep(outs, i);
    valid', order', errors' := valid, order, errors;
    match o {
      case Invalid(msg) =>
        errors' := errors + [msg];
      case Valid(l, e) =>
        if l !in valid {
          order' := order + [l];
        }
        valid' := valid[l := e];
    }
  }


  /** One pass of the second loop's body: the upsert of one file entry
      inside its try block. The rows are read as the table after the
      upserts of the hashes in `done`; a successful upsert adds h to them. */
  method UpsertEntry(store: MemberStore, org: int, h: string, valid: map<string, FileEntry>,
                     current: map<string, Member>, upsertFailures: map<string, string>,
                     ghost rows0: map<(int, string), Member>, ghost done: set<string>)
    returns (added: nat, updated: nat, errors: seq<string>)
    requires h in valid
    requires store.rows == UpsertedRows(rows0, org, valid, done)
    modifies store
    ensures store.rows == UpsertedRows(rows0, org, valid, if h in upsertFailures then done else done + {h})
    ensures store.unhashed == old(store.unhashed)
    ensures added == if h !in current && h !in upsertFailures then 1 else 0
    ensures updated == if h in current && h !in upsertFailures && current[h].mmCepi != valid[h].mmCepi then 1 else 0
    ensures errors == if h in upsertFailures then [UpsertError(valid[h], upsertFailures[h])] else []
  {
    var e := valid[h];
    added, updated, errors := 0, 0, [];
    if h in upsertFailures {
      errors := [UpsertError(e, upsertFailures[h])];
      return;
    }
    UpsertStep(rows0, org, valid, done, h);
    store.Upsert(org, h, e.emailHash, e.mmCepi);
    if h in current {
      if current[h].mmCepi != e.mmCepi {
        updated := 1;
      }
    } else {
      added := 1;
    }
  }

  /** The second loop: every file entry upserted in order; a failed upsert
      is an error and is not counted; otherwise an entry counts as added
      when its hash was not current and as updated when the stored flag
      differs. */
  method UpsertAll(store: MemberStore, org: int, valid: map<string, FileEntry>, order: seq<string>,
                   current: map<string, Member>, upsertFailures: map<string, string>)
    returns (added: nat, updated: nat, errors: seq<string>)
    requires Enumerates(order, valid.Keys)
    modifies store
    ensures store.rows == UpsertedRows(old(store.rows), org, valid, valid.Keys - upsertFailures.Keys)
    ensures store.unhashed == old(store.unhashed)
    ensures added == |AddedSet(valid, current, upsertFailures)|
    ensures updated == |UpdatedSet(valid, current, upsertFailures)|
    ensures errors == UpsertErrors(order, valid, upsertFailures)
  {
    ghost var rows0 := store.rows;
    added, updated, errors := 0, 0, [];
    UpsertNone(rows0, org, valid);
    var j := 0;
    while j < |order|
      invariant 0 <= j <= |order|
      invariant store.rows == UpsertedRows(rows0, org, valid, Upserted(order[..j], upsertFailures))
      invariant store.unhashed == old(store.unhashed)
      invariant added == AddedCount(order[..j], current, upsertFailures)
      invariant updated == UpdatedCount(order[..j], valid, current, upsertFailures)
      invariant errors == UpsertErrors(order[..j], valid, upsertFailures)
    {
      added, updated, errors := UpsertAt(store, org, valid, order, j, current, upsertFailures, rows0,
                                         added, updated, errors);
      j := j + 1;
    }
    assert order[..j] == order;
    UpsertTotals(order, valid, current, upsertFailures);
  }

  /** The second loop's body at position j, read over the loop's running
      state: the table, the counters and the messages after the first j
      hashes become those after the first j + 1. */
  method UpsertAt(store: MemberStore, org: int, valid: map<string, FileEntry>, order: seq<string>, j: nat,
                  current: map<string, Member>, upsertFailures: map<string, string>,
                  ghost rows0: map<(int, string), Member>, added: nat, updated: nat, errors: seq<string>)
    returns (added': nat, updated': nat, errors': seq<string>)
    requires j < |order| && order[j] in valid
    requires store.rows == UpsertedRows(rows0, org, valid, Upserted(order[..j], upsertFailures))
    requires added == AddedCount(order[..j], current, upsertFailures)
    requires updated == UpdatedCount(order[..j], valid, current, upsertFailures)
    requires errors == UpsertErrors(order[..j], valid, upsertFailures)
    modifies store
    ensures store.rows == UpsertedRows(rows0, org, valid, Upserted(order[..j + 1], upsertFailures))
    ensures store.unhashed == old(store.unhashed)
    ensures added' == AddedCount(order[..j + 1], current, upsertFailures)
    ensures updated' == UpdatedCount(order[..j + 1], valid, current, upsertFailures)
    ensures errors' == UpsertErrors(order[..j + 1], valid, upsertFailures)
  {
    var h := order[j];
    UpsertVisit(valid, order, j, current, upsertFailures);
    var a, u, err := UpsertEntry(store, org, h, valid, current, upsertFailures, rows0, Upserted(order[..j], upsertFailures));
    added', updated', errors' := added + a, updated + u, errors + err;
  }

  /** One pass of the third loop's body: nothing for a hash the file
      lists; otherwise the delete inside its try block. */
  method DeleteAbsent(store: MemberStore, org: int, h: string, valid: map<string, FileEntry>,
                      deleteFailures: map<string, string>)
    returns (deleted: nat, errors: seq<string>)
    modifies store
    ensures h !in valid && h !in deleteFailures ==> store.rows == old(store.rows) - {(org, h)}
    ensures h in valid || h in deleteFailures ==> store.rows == old(store.rows)
    ensures store.unhashed == old(store.unhashed)
    ensures deleted == if h !in valid && h !in deleteFailures && (org, h) in old(store.rows) then 1 else 0
    ensures errors == if h !in valid && h in deleteFailures then [DeleteError(deleteFailures[h])] else []
  {
    deleted, errors := 0, [];
    if h !in valid {
      if h in deleteFailures {
        errors := [DeleteError(deleteFailures[h])];
      } else {
        var count := store.DeleteByHash(org, h);
        if count > 0 {
          deleted := 1;
        }
      }
    }
  }

  /** The third loop: every current member whose hash is not in the file is
      deleted, in the order the database returned the members; a delete
      that removed a row is counted, a failed one is an error. */
  method DeleteMissing(store: MemberStore, org: int, valid: map<string, FileEntry>,
                       current: map<string, Member>, currentOrder: seq<string>,
                       deleteFailures: map<string, string>)
    returns (deleted: nat, errors: seq<string>)
    requires Enumerates(currentOrder, current.Keys)
    requires forall h :: h in current ==> (org, h) in store.rows
    modifies store
    ensures store.rows == RemovedRows(old(store.rows), org, DeletedSet(valid, current, deleteFailures))
    ensures store.unhashed == old(store.unhashed)
    ensures deleted == |DeletedSet(valid, current, deleteFailures)|
    ensures errors == DeleteErrors(currentOrder, valid, deleteFailures)
  {
    ghost var rows1 := store.rows;
    deleted, errors := 0, [];
    RemoveNone(rows1, org);
    var j := 0;
    while j < |currentOrder|
      invariant 0 <= j <= |currentOrder|
      invariant store.rows == RemovedRows(rows1, org, Deleted(currentOrder[..j], valid, deleteFailures))
      invariant store.unhashed == old(store.unhashed)
      invariant deleted == DeletedCount(currentOrder[..j], valid, deleteFailures)
      invariant errors == DeleteErrors(currentOrder[..j], valid, deleteFailures)
    {
      var h := currentOrder[j];
      DeleteVisit(rows1, org, valid, currentOrder, j, deleteFailures);
      var d, err := DeleteAbsent(store, org, h, valid, deleteFailures);
      deleted, errors := deleted + d, errors + err;
      j := j + 1;
    }
    assert currentOrder[..j] == currentOrder;
    DeleteTotals(currentOrder, valid, current, deleteFailures);
  }

  /** processSyncImport(): classify the rows, upsert the file's members,
      delete the members the file no longer lists. `ivs[i]` is the random
      iv of row i's encryption; `currentOrder` is the order in which the
      database returns the organisation's members with a lookup hash. */
  method ProcessSyncImport(store: MemberStore, org: int, data: seq<map<string, string>>,
                           c: Crypto, cfg: Option<string>, isEmail: string -> bool, ivs: seq<string>,
                           currentOrder: seq<string>,
                           upsertFailures: map<string, string>, deleteFailures: map<string, string>)
    returns (res: SyncResult)
    requires |ivs| == |data|
    requires Enumerates(currentOrder, CurrentEmails(store.rows, org).Keys)
    modifies store
    ensures var outs := Outcomes(c, cfg, isEmail, ivs, data);
            var file := FileMap(outs);
            var current := CurrentEmails(old(store.rows), org);
            && res.imported == |file|
            && res.added == |AddedSet(file, current, upsertFailures)|
            && res.updated == |UpdatedSet(file, current, upsertFailures)|
            && res.deleted == |DeletedSet(file, current, deleteFailures)|
            && res.errors == RowErrors(outs) + UpsertErrors(KeyOrder(outs), file, upsertFailures)
                             + DeleteErrors(currentOrder, file, deleteFailures)
            && store.rows == SyncedRows(old(store.rows), org, file, upsertFailures, deleteFailures)
            && store.unhashed == old(store.unhashed)
  {
    var current := CurrentEmails(store.rows, org);
    var valid, order, rowErrors := ClassifyAll(c, cfg, isEmail, ivs, data);
    var added, updated, upsertErrors := UpsertAll(store, org, valid, order, current, upsertFailures);
    var deleted, deleteErrors := DeleteMissing(store, org, valid, current, currentOrder, deleteFailures);
    res := SyncResult(|valid|, added, updated, deleted, rowErrors + upsertErrors + deleteErrors);
  }

  // ----- Properties of the sync -----

  /** Under sound primitives every hash the file is keyed by is a 64-digit
      HMAC, never PHP-empty. */
  lemma FileKeysNotBlank(c: Crypto, cfg: Option<string>, isEmail: string -> bool,
                         ivs: seq<string>, data: seq<map<string, string>>)
    requires Sound(c) && |ivs| == |data|
    ensures forall h :: h in FileMap(Outcomes(c, cfg, isEmail, ivs, data)) ==> |h| == 64 && !IsBlank(h)
  {
    var outs := Outcomes(c, cfg, isEmail, ivs, data);
    FileMapKeys(outs);
    forall h | h in FileMap(outs)
      ensures |h| == 64
    {
      var i :| 0 <= i < |outs| && outs[i].Valid? && outs[i].lookup == h;
      assert outs[i] == ClassifyRow(c, cfg, isEmail, ivs[i], data[i], i);
    }
  }

  /** Rows of other organisations, and this organisation's rows without a
      lookup hash, come out of a sync unchanged, whatever failed. */
  lemma UntouchedPreserved(rows: map<(int, string), Member>, org: int, file: map<string, FileEntry>,
                           upsertFailures: map<string, string>, deleteFailures: map<string, string>)
    requires forall h :: h in file ==> !IsBlank(h)
    ensures Untouched(SyncedRows(rows, org, file, upsertFailures, deleteFailures), org) == Untouched(rows, org)
  {
    var up := UpsertedRows(rows, org, file, file.Keys - upsertFailures.Keys);
    UpsertKeepsUntouched(rows, org, file, file.Keys - upsertFailures.Keys);
    RemoveKeepsUntouched(up, org, DeletedSet(file, CurrentEmails(rows, org), deleteFailures));
  }

  /** Upserting file entries, whose hashes are never blank, leaves the
      untouched rows as they were. */
  lemma UpsertKeepsUntouched(rows: map<(int, string), Member>, org: int, file: map<string, FileEntry>,
                             done: set<string>)
    requires forall h :: h in file ==> !IsBlank(h)
    ensures Untouched(UpsertedRows(rows, org, file, done), org) == Untouched(rows, org)
  {
    var up := UpsertedRows(rows, org, file, done);
    assert forall k :: k in up && (k.0 != org || IsBlank(k.1)) ==> k in rows && up[k] == rows[k];
  }

  /** Deleting hashes that are never blank leaves the untouched rows as
      they were. */
  lemma RemoveKeepsUntouched(rows: map<(int, string), Member>, org: int, gone: set<string>)
    requires forall h :: h in gone ==> !IsBlank(h)
    ensures Untouched(RemovedRows(rows, org, gone), org) == Untouched(rows, org)
  {
  }

  /** After a sync in which nothing failed, the organisation's members with
      a lookup hash are exactly the file's entries, each active with the
      file's ciphertext and flag. */
  lemma SyncMirrorsFile(rows: map<(int, string), Member>, org: int, file: map<string, FileEntry>)
    requires forall h :: h in file ==> !IsBlank(h)
    ensures CurrentEmails(SyncedRows(rows, org, file, map[], map[]), org)
            == map h | h in file :: Member(file[h].emailHash, file[h].mmCepi, true)
  {
    var none: map<string, string> := map[];
    var after := SyncedRows(rows, org, file, none, none);
    var want := map h | h in file :: Member(file[h].emailHash, file[h].mmCepi, true);
    var cur := CurrentEmails(rows, org);
    assert file.Keys - none.Keys == file.Keys;
    var up := UpsertedRows(rows, org, file, file.Keys);
    var gone := DeletedSet(file, cur, none);
    assert after == RemovedRows(up, org, gone);
    var got := CurrentEmails(after, org);
    forall h | !IsBlank(h)
      ensures h in got <==> h in file
    {
      assert (org, h) in rows ==> h in cur;
    }
    forall h | h in file
      ensures got[h] == want[h]
    {
      assert h !in gone;
      assert up[(org, h)] == want[h];
    }
  }

  /** An upsert that throws leaves the member's row as it was. */
  lemma FailedUpsertKeepsRow(rows: map<(int, string), Member>, org: int, file: map<string, FileEntry>,
                             upsertFailures: map<string, string>, deleteFailures: map<string, string>, h: string)
    requires h in file && h in upsertFailures
    ensures var after := SyncedRows(rows, org, file, upsertFailures, deleteFailures);
            ((org, h) in after <==> (org, h) in rows) && ((org, h) in rows ==> after[(org, h)] == rows[(org, h)])
  {
  }

  /** A current member the file no longer lists is gone after the sync unless
      its delete threw. */
  lemma AbsentMemberDeleted(rows: map<(int, string), Member>, org: int, file: map<string, FileEntry>,
                            upsertFailures: map<string, string>, deleteFailures: map<string, string>, h: string)
    requires h in CurrentEmails(rows, org) && h !in file
    ensures (org, h) in SyncedRows(rows, org, file, upsertFailures, deleteFailures) <==> h in deleteFailures
  {
  }

  /** Without failures, the added members and the file entries that were
      already members make up the file, and the deleted members and those
      same entries make up the former membership: the organisation goes
      from |current| members to |current| - deleted + added = imported. */
  lemma CountsBalance(file: map<string, FileEntry>, current: map<string, Member>)
    ensures |AddedSet(file, current, map[])| + |file.Keys * current.Keys| == |file|
    ensures |DeletedSet(file, current, map[])| + |file.Keys * current.Keys| == |current|
    ensures |current| - |DeletedSet(file, current, map[])| + |AddedSet(file, current, map[])| == |file|
  {
    var kept := file.Keys * current.Keys;
    var added := AddedSet(file, current, map[]);
    var deleted := DeletedSet(file, current, map[]);
    assert added == file.Keys - current.Keys;
    assert deleted == current.Keys - file.Keys;
    DisjointParts(file.Keys, current.Keys);
    DisjointParts(current.Keys, file.Keys);
    assert current.Keys * file.Keys == kept;
  }

  /** A set splits into the part outside another set and the part inside it. */
  lemma DisjointParts(a: set<string>, b: set<string>)
    ensures |a - b| + |a * b| == |a|
  {
    assert (a - b) + (a * b) == a;
    assert (a - b) * (a * b) == {};
  }

  /** Updates are counted only among the file entries that were already
      members, additions only among the others: together at most imported. */
  lemma CountsBounded(file: map<string, FileEntry>, current: map<string, Member>,
                      upsertFailures: map<string, string>)
    ensures |AddedSet(file, current, upsertFailures)| + |UpdatedSet(file, current, upsertFailures)| <= |file|
  {
    var a := AddedSet(file, current, upsertFailures);
    var u := UpdatedSet(file, current, upsertFailures);
    var outside, inside := file.Keys - current.Keys, file.Keys * current.Keys;
    assert outside * a == a;
    assert inside * u == u;
    DisjointParts(outside, a);
    DisjointParts(inside, u);
    DisjointParts(file.Keys, current.Keys);
  }

  /** Running the same file again right after a sync in which nothing
      failed finds nothing to add, update or delete, whatever fails the
      second time. */
  lemma ResyncChangesNothing(rows: map<(int, string), Member>, org: int,
                             file: map<string, FileEntry>, again: map<string, FileEntry>,
                             upsertFailures: map<string, string>, deleteFailures: map<string, string>)
    requires forall h :: h in file ==> !IsBlank(h)
    requires again.Keys == file.Keys && forall h :: h in file ==> again[h].mmCepi == file[h].mmCepi
    ensures var cur := CurrentEmails(SyncedRows(rows, org, file, map[], map[]), org);
            && AddedSet(again, cur, upsertFailures) == {}
            && UpdatedSet(again, cur, upsertFailures) == {}
            && DeletedSet(again, cur, deleteFailures) == {}
            && FailedDeletes(again, cur, deleteFailures) == {}
  {
    SyncMirrorsFile(rows, org, file);
    var cur := CurrentEmails(SyncedRows(rows, org, file, map[], map[]), org);
    var mirror := map h | h in file :: Member(file[h].emailHash, file[h].mmCepi, true);
    assert cur == mirror;
    assert cur.Keys == again.Keys;
    NothingToDo(again, cur, upsertFailures, deleteFailures);
  }

  /** A file that lists exactly the current members with their current
      flags leaves nothing to add, update or delete. */
  lemma NothingToDo(file: map<string, FileEntry>, current: map<string, Member>,
                    upsertFailures: map<string, string>, deleteFailures: map<string, string>)
    requires file.Keys == current.Keys && forall h :: h in file ==> file[h].mmCepi == current[h].mmCepi
    ensures AddedSet(file, current, upsertFailures) == {}
    ensures UpdatedSet(file, current, upsertFailures) == {}
    ensures DeletedSet(file, current, deleteFailures) == {}
    ensures FailedDeletes(file, current, deleteFailures) == {}
  {
  }

  /** Two outcome lists that agree on which rows are valid and, for those,
      on the lookup hash, the address and the flag. */
  ghost predicate Alike(o1: seq<RowOutcome>, o2: seq<RowOutcome>) {
    |o1| == |o2| &&
    forall i :: 0 <= i < |o1| ==>
      o1[i].Valid? == o2[i].Valid?
      && (o1[i].Valid? ==> o1[i].lookup == o2[i].lookup && o1[i].entry.email == o2[i].entry.email
                           && o1[i].entry.mmCepi == o2[i].entry.mmCepi)
  }

  /** Alike outcomes key the file alike: the same hashes with the same
      addresses and flags; only the ciphertexts may differ. */
  lemma {:induction false} AlikeFileMaps(o1: seq<RowOutcome>, o2: seq<RowOutcome>)
    requires Alike(o1, o2)
    ensures FileMap(o1).Keys == FileMap(o2).Keys
    ensures forall h :: h in FileMap(o1) ==>
              FileMap(o1)[h].mmCepi == FileMap(o2)[h].mmCepi && FileMap(o1)[h].email == FileMap(o2)[h].email
    decreases |o1|
  {
    if o1 != [] {
      var n := |o1| - 1;
      assert Alike(o1[..n], o2[..n]);
      AlikeFileMaps(o1[..n], o2[..n]);
    }
  }

  /** When encryption never fails, the random ivs change nothing but the
      ciphertexts: the same data gives alike outcomes. */
  lemma SameDataAlike(c: Crypto, cfg: Option<string>, isEmail: string -> bool,
                      ivs1: seq<string>, ivs2: seq<string>, data: seq<map<string, string>>)
    requires |ivs1| == |data| && |ivs2| == |data|
    requires forall k, iv, p :: c.encrypt(k, iv, p).Some?
    ensures Alike(Outcomes(c, cfg, isEmail, ivs1, data), Outcomes(c, cfg, isEmail, ivs2, data))
  {
    var o1 := Outcomes(c, cfg, isEmail, ivs1, data);
    var o2 := Outcomes(c, cfg, isEmail, ivs2, data);
    forall i | 0 <= i < |data|
      ensures o1[i].Valid? == o2[i].Valid?
      ensures o1[i].Valid? ==> o1[i].lookup == o2[i].lookup && o1[i].entry.email == o2[i].entry.email
                               && o1[i].entry.mmCepi == o2[i].entry.mmCepi
    {
      var email := Normalize(RawEmail(data[i]));
      if !IsBlank(email) && isEmail(email) {
        assert Hash(c, cfg, ivs1[i], email).Some?;
        assert Hash(c, cfg, ivs2[i], email).Some?;
      }
    }
  }

  /** Importing the same data twice in a row, each time without failures,
      the second run adds, updates and deletes nothing. */
  lemma ReimportIsIdempotent(c: Crypto, cfg: Option<string>, isEmail: string -> bool,
                             ivs1: seq<string>, ivs2: seq<string>, data: seq<map<string, string>>,
                             rows: map<(int, string), Member>, org: int)
    requires Sound(c) && |ivs1| == |data| && |ivs2| == |data|
    requires forall k, iv, p :: c.encrypt(k, iv, p).Some?
    ensures var file1 := FileMap(Outcomes(c, cfg, isEmail, ivs1, data));
            var file2 := FileMap(Outcomes(c, cfg, isEmail, ivs2, data));
            var cur := CurrentEmails(SyncedRows(rows, org, file1, map[], map[]), org);
            && AddedSet(file2, cur, map[]) == {}
            && UpdatedSet(file2, cur, map[]) == {}
            && DeletedSet(file2, cur, map[]) == {}
  {
    var none: map<string, string> := map[];
    SameDataAlike(c, cfg, isEmail, ivs1, ivs2, data);
    AlikeFileMaps(Outcomes(c, cfg, isEmail, ivs1, data), Outcomes(c, cfg, isEmail, ivs2, data));
    FileKeysNotBlank(c, cfg, isEmail, ivs1, data);
    ResyncChangesNothing(rows, org, FileMap(Outcomes(c, cfg, isEmail, ivs1, data)),
                         FileMap(Outcomes(c, cfg, isEmail, ivs2, data)), none, none);
  }

  /** A file entry whose upsert succeeded is in the table after the sync,
      active, with the file's ciphertext and flag. */
  lemma UpsertedEntryStays(rows: map<(int, string), Member>, org: int, file: map<string, FileEntry>,
                           upsertFailures: map<string, string>, deleteFailures: map<string, string>, h: string)
    requires h in file && h !in upsertFailures
    ensures var after := SyncedRows(rows, org, file, upsertFailures, deleteFailures);
            (org, h) in after && after[(org, h)] == Member(file[h].emailHash, file[h].mmCepi, true)
  {
    var up := UpsertedRows(rows, org, file, file.Keys - upsertFailures.Keys);
    assert (org, h) in up && up[(org, h)] == Member(file[h].emailHash, file[h].mmCepi, true);
  }

  /** The lookup hash of a valid row is the lookup hash of every spelling of
      its address with the same normal form. */
  lemma RowLookupMatchesQuery(c: Crypto, cfg: Option<string>, isEmail: string -> bool,
                              iv: string, row: map<string, string>, i: nat, query: string)
    requires ClassifyRow(c, cfg, isEmail, iv, row, i).Valid?
    requires Normalize(query) == Normalize(RawEmail(row))
    ensures HashForLookup(c, cfg, query) == ClassifyRow(c, cfg, isEmail, iv, row, i).lookup
  {
    var o := ClassifyRow(c, cfg, isEmail, iv, row, i);
    NormalizeIdempotent(RawEmail(row));
    if IsBlank(query) {
      NormalizeKeepsBlank(query);
    }
  }

  /** End to end: after a sync, an address imported from row i is found by
      the lookup of any spelling with the same normal form, as long as its
      upsert did not throw and the organisation exists. */
  lemma ImportedAddressIsFound(c: Crypto, cfg: Option<string>, isEmail: string -> bool,
                               ivs: seq<string>, data: seq<map<string, string>>, i: nat, query: string,
                               rows: map<(int, string), Member>, org: int, orgs: map<int, string>,
                               upsertFailures: map<string, string>, deleteFailures: map<string, string>)
    requires |ivs| == |data| && i < |data| && org in orgs
    requires Outcomes(c, cfg, isEmail, ivs, data)[i].Valid?
    requires Outcomes(c, cfg, isEmail, ivs, data)[i].lookup !in upsertFailures
    requires Normalize(query) == Normalize(RawEmail(data[i]))
    ensures IsMatch(SyncedRows(rows, org, FileMap(Outcomes(c, cfg, isEmail, ivs, data)), upsertFailures, deleteFailures),
                    orgs, HashForLookup(c, cfg, query), org)
  {
    var outs := Outcomes(c, cfg, isEmail, ivs, data);
    RowLookupMatchesQuery(c, cfg, isEmail, ivs[i], data[i], i, query);
    FileMapKeys(outs);
    UpsertedEntryStays(rows, org, FileMap(outs), upsertFailures, deleteFailures, outs[i].lookup);
  }
}
