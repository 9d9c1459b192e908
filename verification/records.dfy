/**
 * The record store behind the portal: the `users`, `master_files` and
 * `document_sections` tables, and the operations that read and update them.
 * Every operation first opens a connection; `connected` says whether that
 * succeeded (the connection itself is I/O and is not modelled).
 */
module Records {
  import opened Wrappers
  import opened Ordering
  import Sections

  /** A `users` row. */
  datatype User = User(email: string, fullName: string, xp: int)

  /** The `full_name, xp` columns the leaderboard selects. */
  datatype LeaderRow = LeaderRow(fullName: string, xp: int)

  /** Processing state of a stored file. */
  datatype Status = Completed | Analyzed

  /** The JSON document `{"content": text}` stored in `syllabus_data`. */
  datatype Syllabus = Syllabus(content: string)

  /** A `master_files` row; `createdAt` is the timestamp the database assigns on insert. */
  datatype FileRecord = FileRecord(fileHash: string, fileName: string, syllabus: Syllabus,
                                   status: Status, analysis: Option<string>, createdAt: int)

  // ---------------------------------------------------------------- users

  /** `email.split('@')[0]`: the text before the first '@', or all of it. */
  function DisplayName(email: string): (r: string)
    ensures r <= email
    ensures '@' !in r
    ensures |r| < |email| ==> email[|r|] == '@'
  {
    if email == [] || email[0] == '@' then []
    else [email[0]] + DisplayName(email[1..])
  }

  ghost predicate UniqueEmails(users: seq<User>) {
    forall i, j :: 0 <= i < j < |users| ==> users[i].email != users[j].email
  }

  /** `SELECT * FROM users WHERE email = %s`, first row. */
  function FindUser(users: seq<User>, email: string): (r: Option<User>)
    ensures r.Some? ==> r.value in users && r.value.email == email
    ensures r.None? <==> forall u :: u in users ==> u.email != email
  {
    if users == [] then None
    else if users[0].email == email then Some(users[0])
    else FindUser(users[1..], email)
  }

  /** The user `login_user` creates for an unknown email. */
  function NewUser(email: string): User {
    User(email, DisplayName(email), 0)
  }

  /** The users table after a successful `login_user(email)`. */
  function UsersAfterLogin(users: seq<User>, email: string): (r: seq<User>)
    ensures users <= r && |r| <= |users| + 1
    ensures |r| == |users| <==> FindUser(users, email).Some?
    ensures |r| > |users| ==> r[|users|].email == email && r[|users|].fullName == DisplayName(email) && r[|users|].xp == 0
    ensures FindUser(r, email).Some?
  {
    if FindUser(users, email).Some? then users
    else
      var r := users + [NewUser(email)];
      assert r[|users|] in r;
      r
  }

  /** Login is an upsert: it keeps emails unique, and logging in twice is logging in once. */
  lemma LoginIsUpsert(users: seq<User>, email: string)
    requires UniqueEmails(users)
    ensures UniqueEmails(UsersAfterLogin(users, email))
    ensures UsersAfterLogin(UsersAfterLogin(users, email), email) == UsersAfterLogin(users, email)
    ensures var after := UsersAfterLogin(users, email);
            FindUser(after, email).Some? && FindUser(after, email).value.email == email
  {
    var after := UsersAfterLogin(users, email);
    if FindUser(users, email).None? {
      assert after[|users|] == NewUser(email);
      assert NewUser(email) in after;
    }
  }

  /** The leaderboard users: at most 10, by non-increasing xp. */
  function XpKey(u: User): real { u.xp as real }

  function TopUsers(users: seq<User>): (r: seq<User>)
    ensures |r| == Min(10, |users|)
    ensures multiset(r) <= multiset(users)
    ensures forall i, j :: 0 <= i < j < |r| ==> r[i].xp >= r[j].xp
    ensures forall u :: u in multiset(users) - multiset(r) ==> forall i :: 0 <= i < |r| ==> u.xp <= r[i].xp
  {
    var top := TopK(users, XpKey, 10);
    assert forall i :: 0 <= i < |top| ==> XpKey(top[i]) == top[i].xp as real;
    top
  }

  function RowOf(u: User): LeaderRow { LeaderRow(u.fullName, u.xp) }

  /** `row` holds the name and xp of some user of the table. */
  ghost predicate OfSomeUser(row: LeaderRow, users: seq<User>) {
    exists j :: 0 <= j < |users| && row == RowOf(users[j])
  }

  /**
   * `SELECT full_name, xp FROM users ORDER BY xp DESC LIMIT 10`: each row is the
   * name and xp of a distinct user, and no user left off outranks a listed row.
   */
  function Leaderboard(users: seq<User>): (r: seq<LeaderRow>)
    ensures |r| == Min(10, |users|)
    ensures forall i, j :: 0 <= i < j < |r| ==> r[i].xp >= r[j].xp
    ensures forall i :: 0 <= i < |r| ==> OfSomeUser(r[i], users)
    ensures multiset(r) <= multiset(MapSeq(users, RowOf))
    ensures forall u :: u in users && RowOf(u) !in r ==> forall i :: 0 <= i < |r| ==> u.xp <= r[i].xp
  {
    var top := TopUsers(users);
    var rows := MapSeq(top, RowOf);
    RowsComeFromUsers(top, users, rows);
    MapKeepsSubMultiset(top, users, RowOf);
    LeftOutUsersRankLower(users);
    rows
  }

  /** A user whose row is not on the leaderboard has xp no greater than any listed row. */
  lemma LeftOutUsersRankLower(users: seq<User>)
    ensures var rows := MapSeq(TopUsers(users), RowOf);
            forall u :: u in users && RowOf(u) !in rows ==> forall i :: 0 <= i < |rows| ==> u.xp <= rows[i].xp
  {
    var top := TopUsers(users);
    var rows := MapSeq(top, RowOf);
    assert forall k :: 0 <= k < |top| ==> rows[k] == RowOf(top[k]);
    forall u | u in users && RowOf(u) !in rows
      ensures forall i :: 0 <= i < |rows| ==> u.xp <= rows[i].xp
    {
      assert u !in top;
      assert u in multiset(users) - multiset(top);
    }
  }

  lemma RowsComeFromUsers(top: seq<User>, users: seq<User>, rows: seq<LeaderRow>)
    requires multiset(top) <= multiset(users)
    requires |rows| == |top| && forall i :: 0 <= i < |top| ==> rows[i] == RowOf(top[i])
    ensures forall i :: 0 <= i < |rows| ==> OfSomeUser(rows[i], users)
  {
    forall i | 0 <= i < |rows| ensures OfSomeUser(rows[i], users) {
      var u := top[i];
      assert u in multiset(top);
      assert u in users;
      var j :| 0 <= j < |users| && users[j] == u;
    }
  }

  // ---------------------------------------------------------------- files

  ghost predicate UniqueHashes(files: seq<FileRecord>) {
    forall i, j :: 0 <= i < j < |files| ==> files[i].fileHash != files[j].fileHash
  }

  predicate HasFile(files: seq<FileRecord>, hash: string) {
    exists i :: 0 <= i < |files| && files[i].fileHash == hash
  }

  /** The row `save_file_record` inserts for a new hash. */
  function NewFile(hash: string, name: string, text: string, now: int): FileRecord {
    FileRecord(hash, name, Syllabus(text), Completed, None, now)
  }

  /** The files table after a successful `save_file_record`: insert if the hash is absent. */
  function FilesAfterSave(files: seq<FileRecord>, hash: string, name: string, text: string, now: int)
    : (r: seq<FileRecord>)
    ensures files <= r && |r| <= |files| + 1
    ensures |r| == |files| <==> HasFile(files, hash)
    ensures |r| > |files| ==>
              && r[|files|].fileHash == hash && r[|files|].fileName == name && r[|files|].syllabus == Syllabus(text)
              && r[|files|].status == Completed && r[|files|].analysis == None && r[|files|].createdAt == now
    ensures HasFile(r, hash)
  {
    if HasFile(files, hash) then files else files + [NewFile(hash, name, text, now)]
  }

  /** Saving keeps hashes unique and leaves exactly one row under the hash, whatever was there. */
  lemma SaveKeepsOneRowPerHash(files: seq<FileRecord>, hash: string, name: string, text: string, now: int)
    requires UniqueHashes(files)
    ensures var after := FilesAfterSave(files, hash, name, text, now);
            && UniqueHashes(after)
            && HasFile(after, hash)
            && |after| == |files| + (if HasFile(files, hash) then 0 else 1)
  {
    var after := FilesAfterSave(files, hash, name, text, now);
    if !HasFile(files, hash) {
      assert after[|files|].fileHash == hash;
    }
  }

  /** The row with its analysis set: `SET ai_analysis = %s, ai_status = 'analyzed'`. */
  function Analysed(f: FileRecord, analysis: string): FileRecord {
    f.(analysis := Some(analysis), status := Analyzed)
  }

  /** The files table after a successful `update_ai_analysis`: `UPDATE ... WHERE file_hash = %s`. */
  function FilesAfterAnalysis(files: seq<FileRecord>, hash: string, analysis: string): (r: seq<FileRecord>)
    ensures |r| == |files|
    ensures forall i :: 0 <= i < |files| ==>
              && r[i].fileHash == files[i].fileHash && r[i].fileName == files[i].fileName
              && r[i].syllabus == files[i].syllabus && r[i].createdAt == files[i].createdAt
    ensures forall i :: 0 <= i < |files| && files[i].fileHash == hash ==>
              r[i].status == Analyzed && r[i].analysis == Some(analysis)
    ensures forall i :: 0 <= i < |files| && files[i].fileHash != hash ==> r[i] == files[i]
  {
    seq(|files|, i requires 0 <= i < |files| =>
      if files[i].fileHash == hash then Analysed(files[i], analysis) else files[i])
  }

  /**
   * Updating touches only the rows of `hash`: those get the analysis and status
   * `analyzed` and keep everything else; an unknown hash changes nothing.
   */
  lemma AnalysisTouchesOnlyItsRow(files: seq<FileRecord>, hash: string, analysis: string)
    ensures var r := FilesAfterAnalysis(files, hash, analysis);
            && (forall i :: 0 <= i < |files| && files[i].fileHash != hash ==> r[i] == files[i])
            && (forall i :: 0 <= i < |files| && files[i].fileHash == hash ==>
                  && r[i].analysis == Some(analysis) && r[i].status == Analyzed
                  && r[i].fileHash == hash && r[i].fileName == files[i].fileName
                  && r[i].syllabus == files[i].syllabus && r[i].createdAt == files[i].createdAt)
            && (!HasFile(files, hash) ==> r == files)
            && (UniqueHashes(files) ==> UniqueHashes(r))
            && (forall h :: HasFile(r, h) <==> HasFile(files, h))
  {
    var r := FilesAfterAnalysis(files, hash, analysis);
    forall h ensures HasFile(r, h) <==> HasFile(files, h) {
      if HasFile(r, h) {
        var i :| 0 <= i < |r| && r[i].fileHash == h;
        assert files[i].fileHash == h;
      }
      if HasFile(files, h) {
        var i :| 0 <= i < |files| && files[i].fileHash == h;
        assert r[i].fileHash == h;
      }
    }
  }

  function CreatedKey(f: FileRecord): real { f.createdAt as real }

  /** `SELECT * FROM master_files ORDER BY created_at DESC`. */
  function NewestFirst(files: seq<FileRecord>): (r: seq<FileRecord>)
    ensures multiset(r) == multiset(files)
    ensures forall i, j :: 0 <= i < j < |r| ==> r[i].createdAt >= r[j].createdAt
  {
    var sorted := SortDesc(files, CreatedKey);
    assert forall i :: 0 <= i < |sorted| ==> CreatedKey(sorted[i]) == sorted[i].createdAt as real;
    sorted
  }

  // ---------------------------------------------------------------- the store

  class Store {
    var users: seq<User>
    var files: seq<FileRecord>
    var sections: seq<Sections.Section>

    /** Emails and file hashes identify their rows; the sections table has its declared shape. */
    ghost predicate Valid()
      reads this
    {
      UniqueEmails(users) && UniqueHashes(files) && Sections.WellFormed(sections)
    }

    constructor ()
      ensures Valid()
      ensures users == [] && files == [] && sections == []
    {
      users, files, sections := [], [], [];
    }

    /**
     * `login_user`: the existing user, or a fresh one (name before '@', xp 0) that is
     * inserted. `None` when the connection fails.
     */
    method Login(email: string, connected: bool) returns (user: Option<User>)
      requires Valid()
      modifies this`users
      ensures Valid()
      ensures !connected ==> user.None? && users == old(users)
      ensures connected ==> users == UsersAfterLogin(old(users), email) && user == FindUser(users, email)
      ensures connected && FindUser(old(users), email).Some? ==>
                user == FindUser(old(users), email) && users == old(users)
      ensures connected && FindUser(old(users), email).None? ==>
                user == Some(NewUser(email)) && users == old(users) + [NewUser(email)]
    {
      if !connected {
        return None;
      }
      user := FindUser(users, email);
      LoginIsUpsert(users, email);
      if user.None? {
        users := users + [NewUser(email)];
        user := FindUser(users, email);
        assert users[|users| - 1] == NewUser(email);
      }
    }

    /**
     * `save_file_record`: inserts a `completed` row with the text wrapped under
     * "content" unless the hash is already stored. True unless the connection fails.
     */
    method SaveFile(hash: string, name: string, text: string, now: int, connected: bool) returns (ok: bool)
      requires Valid()
      modifies this`files
      ensures Valid()
      ensures ok == connected
      ensures files == if connected then FilesAfterSave(old(files), hash, name, text, now) else old(files)
    {
      if !connected {
        return false;
      }
      SaveKeepsOneRowPerHash(files, hash, name, text, now);
      if HasFile(files, hash) {
        return true;
      }
      files := files + [NewFile(hash, name, text, now)];
      return true;
    }

    /** `get_all_files`: every file row, newest first; `[]` when the connection fails. */
    method AllFiles(connected: bool) returns (rows: seq<FileRecord>)
      ensures !connected ==> rows == []
      ensures connected ==> multiset(rows) == multiset(files)
      ensures forall i, j :: 0 <= i < j < |rows| ==> rows[i].createdAt >= rows[j].createdAt
    {
      if !connected {
        return [];
      }
      rows := NewestFirst(files);
    }

    /**
     * `update_ai_analysis`: sets the analysis and status `analyzed` of the row with
     * `hash`. True whenever the connection succeeds, even if no row matched.
     */
    method UpdateAnalysis(hash: string, analysis: string, connected: bool) returns (ok: bool)
      requires Valid()
      modifies this`files
      ensures Valid()
      ensures ok == connected
      ensures files == if connected then FilesAfterAnalysis(old(files), hash, analysis) else old(files)
    {
      if !connected {
        return false;
      }
      AnalysisTouchesOnlyItsRow(files, hash, analysis);
      files := FilesAfterAnalysis(files, hash, analysis);
      return true;
    }

    /** `get_leaderboard`: the top 10 users by xp; `[]` when the connection fails. */
    method Leaders(connected: bool) returns (rows: seq<LeaderRow>)
      ensures !connected ==> rows == []
      ensures connected ==> |rows| == Min(10, |users|)
      ensures forall i, j :: 0 <= i < j < |rows| ==> rows[i].xp >= rows[j].xp
      ensures forall i :: 0 <= i < |rows| ==> OfSomeUser(rows[i], users)
      ensures connected ==> multiset(rows) <= multiset(MapSeq(users, RowOf))
      ensures connected ==> forall u :: u in users && RowOf(u) !in rows ==>
                forall i :: 0 <= i < |rows| ==> u.xp <= rows[i].xp
    {
      if !connected {
        return [];
      }
      rows := Leaderboard(users);
    }

    /**
     * The "Wipe All Files" action: truncates `master_files` and `document_sections`;
     * users are kept. Nothing changes when the connection fails.
     */
    method Wipe(connected: bool) returns (ok: bool)
      requires Valid()
      modifies this`files, this`sections
      ensures Valid()
      ensures ok == connected
      ensures connected ==> files == [] && sections == []
      ensures !connected ==> files == old(files) && sections == old(sections)
    {
      if !connected {
        return false;
      }
      files, sections := [], [];
      return true;
    }
  }
}
