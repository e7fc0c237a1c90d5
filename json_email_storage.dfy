/**
 * The JSON-backed message store
 * (src/EmailClient.Infrastructure/Repositories/JsonEmailStorage.cs).
 *
 * The store keeps an ordered list of messages in memory and, after every
 * change, overwrites the whole file with a snapshot of that list. The file is
 * an object of its own (`JsonFile`) so that a second store opened on the same
 * file sees what the first one wrote. JSON text is not modelled: a snapshot is
 * the list itself.
 */
module Repositories {
  import opened Models
  import opened Sequences

  /** What reading and deserialising the file yields. */
  datatype FileState =
    | Missing                                  // `File.Exists` is false
    | Unreadable                               // reading or deserialising throws
    | JsonNull                                 // the file holds the JSON literal `null`
    | Snapshot(records: seq<EmailMessage>)     // a JSON array of messages

  /** The file at the store's path. */
  class JsonFile {
    var content: FileState

    constructor (content: FileState)
      ensures this.content == content
    {
      this.content := content;
    }
  }

  /** The messages a load adds: nothing unless the file holds a list. */
  function Loaded(f: FileState): seq<EmailMessage>
  {
    if f.Snapshot? then f.records else []
  }

  /** The predicate handed to `List.RemoveAll` for identifier `id`. */
  function HasId(id: string): EmailMessage -> bool
  {
    (m: EmailMessage) => m.id == id
  }

  /** Its negation: the messages `RemoveAll` keeps. */
  function OtherId(id: string): EmailMessage -> bool
  {
    (m: EmailMessage) => m.id != id
  }

  /** Number of messages with identifier `id`. */
  function CountId(s: seq<EmailMessage>, id: string): nat
  {
    |Where(s, HasId(id))|
  }

  /** `RemoveAll(e => e.Id == id)` on a list: the records with another identifier stay. */
  function RemoveId(s: seq<EmailMessage>, id: string): (r: seq<EmailMessage>)
    ensures forall m :: m in r <==> m in s && m.id != id
    ensures |r| <= |s|
  {
    Where(s, OtherId(id))
  }

  /** The list after `SaveAsync(e)`: every record with `e`'s identifier removed, then `e` appended. */
  function Upsert(s: seq<EmailMessage>, e: EmailMessage): (r: seq<EmailMessage>)
    ensures r != [] && r[|r| - 1] == e
    ensures forall m :: m in r <==> m == e || (m in s && m.id != e.id)
  {
    RemoveId(s, e.id) + [e]
  }

  /** No two messages share an identifier. */
  ghost predicate UniqueIds(s: seq<EmailMessage>)
  {
    forall i, j :: 0 <= i < |s| && 0 <= j < |s| && s[i].id == s[j].id ==> i == j
  }

  /**
   * `RemoveAll` removes exactly the records with identifier `id` and keeps all
   * others, each as often as before and in their original order.
   */
  lemma RemoveIdSpec(s: seq<EmailMessage>, id: string)
    ensures IsSubsequence(RemoveId(s, id), s)
    ensures |RemoveId(s, id)| == |s| - CountId(s, id)
    ensures forall m :: m in RemoveId(s, id) ==> m.id != id
    ensures forall m: EmailMessage :: m.id != id ==> multiset(RemoveId(s, id))[m] == multiset(s)[m]
  {
    WhereIsSubsequence(s, OtherId(id));
    WhereComplement(s, HasId(id), OtherId(id));
    forall m: EmailMessage | m.id != id
      ensures multiset(RemoveId(s, id))[m] == multiset(s)[m]
    {
      WhereCounts(s, OtherId(id), m);
    }
  }

  /** Removing an identifier no record carries leaves the list unchanged. */
  lemma RemoveAbsentId(s: seq<EmailMessage>, id: string)
    requires forall i :: 0 <= i < |s| ==> s[i].id != id
    ensures RemoveId(s, id) == s
  {
    WhereAllPass(s, OtherId(id));
  }

  lemma RemoveIdIdempotent(s: seq<EmailMessage>, id: string)
    ensures RemoveId(RemoveId(s, id), id) == RemoveId(s, id)
  {
    WhereIdempotent(s, OtherId(id));
  }

  /** Removing any identifier keeps identifiers pairwise distinct. */
  lemma {:induction false} RemoveIdKeepsUnique(s: seq<EmailMessage>, id: string)
    requires UniqueIds(s)
    ensures UniqueIds(RemoveId(s, id))
  {
    if s != [] {
      assert UniqueIds(s[1..]) by {
        forall i, j | 0 <= i < |s[1..]| && 0 <= j < |s[1..]| && s[1..][i].id == s[1..][j].id
          ensures i == j
        {
          assert s[i + 1].id == s[j + 1].id;
        }
      }
      RemoveIdKeepsUnique(s[1..], id);
      var rest := RemoveId(s[1..], id);
      if s[0].id != id {
        var r := RemoveId(s, id);
        assert r == [s[0]] + rest;
        forall k | 0 <= k < |rest| ensures rest[k].id != s[0].id {
          assert rest[k] in s[1..];
          var j :| 0 <= j < |s[1..]| && s[1..][j] == rest[k];
          assert s[j + 1] == rest[k];
        }
        forall i, j | 0 <= i < |r| && 0 <= j < |r| && r[i].id == r[j].id
          ensures i == j
        {
          if i > 0 && j > 0 {
            assert r[i] == rest[i - 1] && r[j] == rest[j - 1];
          }
        }
      }
    }
  }

  /**
   * After `SaveAsync(e)` exactly one record carries `e`'s identifier and it is
   * the last one; the records before it are the old ones without that
   * identifier, in their original order; the length drops by the number of
   * replaced records and grows by one.
   */
  lemma UpsertSpec(s: seq<EmailMessage>, e: EmailMessage)
    ensures |Upsert(s, e)| == |s| - CountId(s, e.id) + 1
    ensures Upsert(s, e)[|Upsert(s, e)| - 1] == e
    ensures CountId(Upsert(s, e), e.id) == 1
    ensures forall i :: 0 <= i < |Upsert(s, e)| - 1 ==> Upsert(s, e)[i].id != e.id
    ensures IsSubsequence(Upsert(s, e)[..|Upsert(s, e)| - 1], s)
    ensures forall m: EmailMessage :: m.id != e.id ==> multiset(Upsert(s, e))[m] == multiset(s)[m]
  {
    var kept := RemoveId(s, e.id);
    RemoveIdSpec(s, e.id);
    assert Upsert(s, e)[..|Upsert(s, e)| - 1] == kept;
    forall i | 0 <= i < |kept| ensures !HasId(e.id)(kept[i]) {
      assert kept[i] in kept;
    }
    WhereNonePass(kept, HasId(e.id));
    WhereAppend(kept, [e], HasId(e.id));
    assert Where([e], HasId(e.id)) == [e];
  }

  /** If identifiers are pairwise distinct before `SaveAsync`, they are after it. */
  lemma UpsertKeepsUnique(s: seq<EmailMessage>, e: EmailMessage)
    requires UniqueIds(s)
    ensures UniqueIds(Upsert(s, e))
  {
    RemoveIdKeepsUnique(s, e.id);
    UpsertSpec(s, e);
  }

  /**
   * The last save wins: saving `b` right after a record `a` with the same
   * identifier leaves no trace of `a`. Messages that never had an identifier
   * assigned all share the empty one, so they replace each other too.
   */
  lemma UpsertSameIdReplaces(s: seq<EmailMessage>, a: EmailMessage, b: EmailMessage)
    requires a.id == b.id
    ensures Upsert(Upsert(s, a), b) == Upsert(s, b)
  {
    var kept := RemoveId(s, a.id);
    WhereAppend(kept, [a], OtherId(a.id));
    assert Where([a], OtherId(a.id)) == [];
    RemoveIdIdempotent(s, a.id);
  }

  /** Saving the same record twice in a row gives the same list as saving it once. */
  lemma UpsertIdempotent(s: seq<EmailMessage>, e: EmailMessage)
    ensures Upsert(Upsert(s, e), e) == Upsert(s, e)
  {
    UpsertSameIdReplaces(s, e, e);
  }

  /**
   * One `JsonEmailStorage` instance: the in-memory list `emails` and the file
   * it mirrors. The lock of the source is not modelled (it is never contended
   * in this sequential model, and the list is changed outside it anyway).
   */
  class JsonEmailStorage {
    const file: JsonFile
    var emails: seq<EmailMessage>

    /** The file holds exactly the in-memory list. */
    predicate InSync()
      reads this, file
    {
      file.content == Snapshot(emails)
    }

    /** A new session: an empty list, then whatever `LoadFromFile` finds. */
    constructor (file: JsonFile)
      ensures this.file == file
      ensures emails == Loaded(file.content)
      ensures file.content.Snapshot? ==> InSync()
    {
      this.file := file;
      emails := [];
      new;
      LoadFromFile();
    }

    /**
     * Appends the file's records to the list; a missing, unreadable or `null`
     * file adds nothing and raises nothing.
     */
    method LoadFromFile()
      modifies this
      ensures emails == old(emails) + Loaded(file.content)
    {
      match file.content
      case Snapshot(records) =>
        emails := emails + records;
      case _ =>
    }

    /**
     * Overwrites the file with the list. `writeOk` is the outcome of the
     * write; a failed write is swallowed and leaves the file as it was.
     */
    method SaveToFile(writeOk: bool)
      modifies file
      ensures writeOk ==> InSync()
      ensures !writeOk ==> file.content == old(file.content)
    {
      if writeOk {
        file.content := Snapshot(emails);
      }
    }

    /** `SaveAsync`: upsert by identifier, then write the snapshot. */
    method Save(email: EmailMessage, writeOk: bool)
      modifies this, file
      ensures emails == Upsert(old(emails), email)
      ensures writeOk ==> InSync()
      ensures !writeOk ==> file.content == old(file.content)
      ensures UniqueIds(old(emails)) ==> UniqueIds(emails)
    {
      emails := RemoveId(emails, email.id);
      emails := emails + [email];
      SaveToFile(writeOk);
      if UniqueIds(old(emails)) {
        UpsertKeepsUnique(old(emails), email);
      }
    }

    /** `LoadAllAsync`: a copy of the list; neither the list nor the file changes. */
    method LoadAll() returns (r: seq<EmailMessage>)
      ensures r == emails
    {
      r := emails;
    }

    /** `DeleteAsync`: remove every record with identifier `id`, then write the snapshot. */
    method Delete(id: string, writeOk: bool)
      modifies this, file
      ensures emails == RemoveId(old(emails), id)
      ensures writeOk ==> InSync()
      ensures !writeOk ==> file.content == old(file.content)
      ensures UniqueIds(old(emails)) ==> UniqueIds(emails)
    {
      emails := RemoveId(emails, id);
      SaveToFile(writeOk);
      if UniqueIds(old(emails)) {
        RemoveIdKeepsUnique(old(emails), id);
      }
    }
  }

  /**
   * A message saved through one session, with the write succeeding, is the
   * last message a new session on the same file loads.
   */
  method SaveThenReopen(file: JsonFile, email: EmailMessage) returns (loaded: seq<EmailMessage>)
    modifies file
    ensures loaded == Upsert(Loaded(old(file.content)), email)
    ensures loaded[|loaded| - 1] == email && CountId(loaded, email.id) == 1
    ensures old(file.content) == Missing ==> loaded == [email]
  {
    var first := new JsonEmailStorage(file);
    first.Save(email, true);
    var second := new JsonEmailStorage(file);
    loaded := second.LoadAll();
    UpsertSpec(Loaded(old(file.content)), email);
  }
}
