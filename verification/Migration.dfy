/**
 * Migrating an older database file at startup: what may be in the directory,
 * what each file operation does to it, and a run of the migration, which a
 * crash, an error or a stop request can end between any two operations.
 */
module Migration {
  import opened Helpers

  /** What a fingerprint reads of a message, the size of its source among it. */
  datatype Message = Message(key: string, size: nat)

  type Rows = seq<Message>

  datatype Schema = Legacy | Previous

  const SCHEMA_VERSION := 2
  const PREVIOUS_SCHEMA_VERSION := 1
  const MAX_BUILD_ATTEMPTS := 2

  function Version(schema: Schema): int {
    match schema
    case Legacy => 0
    case Previous => PREVIOUS_SCHEMA_VERSION
  }

  function FromVersion(version: int): Option<Schema> {
    if version == Version(Legacy) then Some(Legacy)
    else if version == Version(Previous) then Some(Previous)
    else None
  }

  /** A fingerprint as a copy stores it: bare in copies made by older versions, else with the copy's schema. */
  datatype StoredPrint = Bare(fingerprint: string) | Qualified(target: int, fingerprint: string)

  datatype Origin = Origin(fingerprint: StoredPrint, sourceSchema: int, targetSchema: int)

  predicate MadeFrom(origin: Origin, fingerprint: string) {
    origin.fingerprint == Bare(fingerprint) || origin.fingerprint == Qualified(origin.targetSchema, fingerprint)
  }

  datatype Kind =
    | Empty
    | Older(schema: Schema, rows: Rows, origin: Option<Origin>)
    | Current(rows: Rows, origin: Option<Origin>)
    | Building(rows: Rows, origin: Option<Origin>)
    | Unrecognized

  datatype File = File(inode: nat, kind: Kind)

  datatype Dir = Dir(db: Option<File>, legacyBackup: Option<File>, previousBackup: Option<File>, copy: Option<File>)
  {
    function Backup(schema: Schema): Option<File> {
      match schema
      case Legacy => legacyBackup
      case Previous => previousBackup
    }

    function WithBackup(schema: Schema, file: File): Dir {
      match schema
      case Legacy => this.(legacyBackup := Some(file))
      case Previous => this.(previousBackup := Some(file))
    }

    /** No two names are links to one file, and inodes from `next` on are free. */
    predicate Distinct(next: nat) {
      && Below(db, next) && Below(legacyBackup, next) && Below(previousBackup, next) && Below(copy, next)
      && Apart(db, legacyBackup) && Apart(db, previousBackup) && Apart(db, copy)
      && Apart(legacyBackup, previousBackup) && Apart(legacyBackup, copy) && Apart(previousBackup, copy)
    }
  }

  predicate Below(file: Option<File>, next: nat) {
    file.Some? ==> file.value.inode < next
  }

  predicate Apart(a: Option<File>, b: Option<File>) {
    a.Some? && b.Some? ==> a.value.inode != b.value.inode
  }

  /** `kind` with the origin row rewritten. */
  function WithOrigin(kind: Kind, origin: Origin): Kind {
    match kind
    case Older(schema, rows, _) => Older(schema, rows, Some(origin))
    case Current(rows, _) => Current(rows, Some(origin))
    case Building(rows, _) => Building(rows, Some(origin))
    case _ => kind
  }

  datatype DbState = DbAbsent | DbEmpty | DbOlder(schema: Schema) | DbCurrent | DbUnrecognized

  function InspectDb(file: Option<File>): DbState {
    if file.None? then DbAbsent
    else match file.value.kind
      case Empty => DbEmpty
      case Older(schema, _, _) => DbOlder(schema)
      case Current(_, _) => DbCurrent
      case Building(_, _) => DbUnrecognized
      case Unrecognized => DbUnrecognized
  }

  datatype CopyState =
    | CopyAbsent
    | Incomplete(origin: Option<Origin>)
    | Complete(schema: int, origin: Option<Origin>)

  function InspectCopy(file: Option<File>): CopyState {
    if file.None? then CopyAbsent
    else match file.value.kind
      case Empty => Incomplete(None)
      case Older(Legacy, _, origin) => Incomplete(origin)
      case Older(Previous, _, origin) => Complete(PREVIOUS_SCHEMA_VERSION, origin)
      case Current(_, origin) => Complete(SCHEMA_VERSION, origin)
      case Building(_, origin) => Incomplete(origin)
      case Unrecognized => Incomplete(None)
  }

  /** The origin of a copy that can be carried on building: one started from the same schema. */
  function ResumableOrigin(copy: CopyState, source: Schema): Option<Origin> {
    if copy.CopyAbsent? || copy.origin.None? then None
    else if copy.origin.value.sourceSchema == Version(source) && copy.origin.value.targetSchema == SCHEMA_VERSION then
      copy.origin
    else None
  }

  datatype Name = Db | BackupOf(schema: Schema) | Copy

  function Lookup(dir: Dir, name: Name): Option<File> {
    match name
    case Db => dir.db
    case BackupOf(schema) => dir.Backup(schema)
    case Copy => dir.copy
  }

  /** A rename, with the directory as it found it. */
  datatype Renaming = Renaming(from: Name, to: Name, before: Dir)

  /** `copy` is complete and was made from `source`, by what it says of its origin. */
  predicate CompleteCopyOf(copy: File, source: File, printOf: Rows -> string) {
    var state := InspectCopy(Some(copy));
    && source.kind.Older?
    && state.Complete? && state.origin.Some?
    && state.origin.value.sourceSchema == Version(source.kind.schema)
    && MadeFrom(state.origin.value, printOf(source.kind.rows))
  }

  /**
   * No rename replaces a file, and only a complete copy is renamed to `db`,
   * beside the backup of the very database it was made from.
   */
  predicate Harmless(r: Renaming, printOf: Rows -> string) {
    && Lookup(r.before, r.from).Some?
    && Lookup(r.before, r.to).None?
    && (r.to == Db ==>
          && r.from == Copy
          && var origin := InspectCopy(r.before.copy).origin;
             origin.Some? && FromVersion(origin.value.sourceSchema).Some? &&
             var backup := r.before.Backup(FromVersion(origin.value.sourceSchema).value);
             backup.Some? && CompleteCopyOf(r.before.copy.value, backup.value, printOf))
  }

  /** The fingerprint an origin claims its copy has. */
  function ClaimedPrint(origin: Option<Origin>): Option<string> {
    if origin.None? then None
    else match origin.value.fingerprint
      case Bare(fingerprint) => Some(fingerprint)
      case Qualified(target, fingerprint) => if target == origin.value.targetSchema then Some(fingerprint) else None
  }

  /** No two of these lists of messages have one fingerprint. */
  ghost predicate NoCollisions(printOf: Rows -> string, lists: set<Rows>) {
    forall a, b :: a in lists && b in lists && printOf(a) == printOf(b) ==> a == b
  }

  lemma FewerCollisions(printOf: Rows -> string, lists: set<Rows>, more: set<Rows>)
    requires lists <= more && NoCollisions(printOf, more)
    ensures NoCollisions(printOf, lists)
  {
  }

  predicate Lists(file: Option<File>, lists: set<Rows>) {
    file.Some? && (file.value.kind.Older? || file.value.kind.Current?) ==> file.value.kind.rows in lists
  }

  /** What the database and its backups hold. */
  predicate ListsAll(dir: Dir, lists: set<Rows>) {
    Lists(dir.db, lists) && Lists(dir.legacyBackup, lists) && Lists(dir.previousBackup, lists)
  }

  /** A copy holds the messages of the fingerprint it claims, or, unfinished, the first of them. */
  ghost predicate Honest(copy: Option<File>, printOf: Rows -> string, lists: set<Rows>) {
    copy.Some? && ClaimedPrint(InspectCopy(copy).origin).Some? ==>
      var claimed, rows := ClaimedPrint(InspectCopy(copy).origin).value, copy.value.kind.rows;
      && (InspectCopy(copy).Complete? ==> rows in lists && claimed == printOf(rows))
      && (copy.value.kind.Building? ==> exists all :: all in lists && rows <= all && claimed == printOf(all))
  }

  lemma NewList(dir: Dir, file: File, lists: set<Rows>)
    requires file.kind.Older?
    ensures ListsAll(dir, lists) ==> ListsAll(dir.(db := Some(file)), lists + {file.kind.rows})
  {
  }

  lemma HonestStays(copy: Option<File>, printOf: Rows -> string, lists: set<Rows>, more: set<Rows>)
    requires lists <= more
    ensures Honest(copy, printOf, lists) ==> Honest(copy, printOf, more)
  {
  }

  lemma NoCopyIsHonest(printOf: Rows -> string, lists: set<Rows>)
    ensures Honest(None, printOf, lists)
  {
  }

  /** What an honest, unfinished copy of `rows` holds of them. */
  lemma HonestPart(copy: Option<File>, source: Schema, rows: Rows, printOf: Rows -> string, lists: set<Rows>)
    requires NoCollisions(printOf, lists) && Honest(copy, printOf, lists) && CopyIs(copy, source, printOf(rows))
    requires copy.value.kind.Building? && rows in lists
    ensures copy.value.kind.rows <= rows
  {
  }

  lemma QualifiedIsHonest(copy: File, origin: Origin, fingerprint: string, printOf: Rows -> string, lists: set<Rows>)
    requires InspectCopy(Some(copy)).origin == Some(origin) && origin.fingerprint == Bare(fingerprint)
    requires Honest(Some(copy), printOf, lists)
    ensures var qualified := origin.(fingerprint := Qualified(origin.targetSchema, fingerprint));
            Honest(Some(File(copy.inode, WithOrigin(copy.kind, qualified))), printOf, lists)
  {
  }

  lemma EmptyIsHonest(copy: Option<File>, printOf: Rows -> string, lists: set<Rows>)
    requires copy.Some? && copy.value.kind.Empty?
    ensures Honest(copy, printOf, lists)
  {
  }

  lemma PartIsHonest(copy: Option<File>, source: Schema, rows: Rows, printOf: Rows -> string, lists: set<Rows>)
    requires CopyIs(copy, source, printOf(rows)) && copy.value.kind.Building? && copy.value.kind.rows <= rows
    requires rows in lists
    ensures Honest(copy, printOf, lists)
  {
  }

  lemma WholeIsHonest(copy: Option<File>, source: Schema, rows: Rows, printOf: Rows -> string, lists: set<Rows>)
    requires CopyIs(copy, source, printOf(rows)) && copy.value.kind.Current? && copy.value.kind.rows == rows
    requires rows in lists
    ensures Honest(copy, printOf, lists)
  {
  }

  /** An older database and one with the same messages. */
  predicate SameRows(a: Option<File>, b: Option<File>) {
    && a.Some? && (a.value.kind.Older? || a.value.kind.Current?)
    && b.Some? && b.value.kind.Older?
    && a.value.kind.rows == b.value.kind.rows
  }

  lemma HonestCopyMatches(copy: Option<File>, backup: Option<File>, printOf: Rows -> string, lists: set<Rows>)
    requires copy.Some? && backup.Some? && CompleteCopyOf(copy.value, backup.value, printOf)
    requires NoCollisions(printOf, lists) && Honest(copy, printOf, lists) && Lists(backup, lists)
    ensures SameRows(copy, backup)
  {
    assert Some(copy.value) == copy;
  }

  /** A rename to `db` installs the messages of a backup beside it. */
  ghost predicate Matching(r: Renaming) {
    r.to == Db ==> exists schema :: SameRows(r.before.copy, r.before.Backup(schema))
  }

  ghost predicate AllMatching(renames: seq<Renaming>) {
    forall i :: 0 <= i < |renames| ==> Matching(renames[i])
  }

  /** A copy made from `backup` that is as it claims matches it. */
  lemma InstallMatches(before: Dir, schema: Schema, renames: seq<Renaming>, printOf: Rows -> string,
                       lists: set<Rows>)
    requires before.copy.Some? && before.Backup(schema).Some?
    requires NoCollisions(printOf, lists) && Honest(before.copy, printOf, lists) && ListsAll(before, lists)
    requires CompleteCopyOf(before.copy.value, before.Backup(schema).value, printOf)
    requires AllMatching(renames)
    ensures AllMatching(renames + [Renaming(Copy, Db, before)]) && Lists(before.copy, lists)
  {
    HonestCopyMatches(before.copy, before.Backup(schema), printOf, lists);
    assert Matching(Renaming(Copy, Db, before));
  }

  lemma SetAsideMatches(before: Dir, schema: Schema, renames: seq<Renaming>)
    requires AllMatching(renames)
    ensures AllMatching(renames + [Renaming(Db, BackupOf(schema), before)])
  {
  }

  datatype Preparation =
    | Ready(migrated: bool)
    | Paused
    | Refused
    | Failed  // an I/O error, or the process ended

  /** How far a locked run got. */
  datatype Locked = Swappable | Stopped(end: Preparation)

  datatype Start = Fresh | Resume | Finished

  datatype BuildEnd = Built | StopRequested | Interrupted

  // ---------- What every step keeps ----------

  /**
   * The older database `orig` is intact, as `db` or as the backup of its
   * schema, and never at both. While it is `db`, nothing is at that backup.
   */
  predicate Intact(dir: Dir, next: nat, orig: File) {
    && orig.kind.Older?
    && dir.Distinct(next)
    && (if dir.Backup(orig.kind.schema).None? then dir.db == Some(orig)
        else dir.Backup(orig.kind.schema) == Some(orig) && dir.db != Some(orig))
  }

  /** The origin this version gives a copy of `orig`. */
  function OwnOrigin(orig: File, printOf: Rows -> string): Origin
    requires orig.kind.Older?
  {
    Origin(Qualified(SCHEMA_VERSION, printOf(orig.kind.rows)), Version(orig.kind.schema), SCHEMA_VERSION)
  }

  /** A copy this version made of `orig`, as far as it got. */
  predicate OwnCopy(copy: File, orig: File, printOf: Rows -> string)
    requires orig.kind.Older?
  {
    match copy.kind
    case Empty => true
    case Building(rows, origin) => origin == Some(OwnOrigin(orig, printOf)) && rows <= orig.kind.rows
    case Current(rows, origin) => origin == Some(OwnOrigin(orig, printOf)) && rows == orig.kind.rows
    case _ => false
  }

  /** The migration is done: the database is current with every message, and the backup is the old one. */
  predicate Migrated(dir: Dir, orig: File, printOf: Rows -> string)
    requires orig.kind.Older?
  {
    && dir.db.Some? && dir.db.value.kind == Current(orig.kind.rows, Some(OwnOrigin(orig, printOf)))
    && dir.Backup(orig.kind.schema) == Some(orig)
    && dir.copy == None
  }

  /** What a crash, an error or a pause can leave of a migration that started with no copy and no backup. */
  predicate Recoverable(dir: Dir, next: nat, orig: File, printOf: Rows -> string) {
    && Intact(dir, next, orig)
    && if dir.Backup(orig.kind.schema).None? then dir.copy.Some? ==> OwnCopy(dir.copy.value, orig, printOf)
       else if dir.db.None? then
         dir.copy.Some? && dir.copy.value.kind.Current? && OwnCopy(dir.copy.value, orig, printOf)
       else Migrated(dir, orig, printOf)
  }

  predicate AllHarmless(renames: seq<Renaming>, printOf: Rows -> string) {
    forall i :: 0 <= i < |renames| ==> Harmless(renames[i], printOf)
  }

  /** Making, changing or removing the copy touches nothing else. */
  lemma CopyChanged(dir: Dir, next: nat, orig: File, copy: Option<File>, next2: nat)
    requires Intact(dir, next, orig) && next <= next2
    requires copy.Some? ==>
               (copy.value.inode == next && next < next2) ||
               (dir.copy.Some? && copy.value.inode == dir.copy.value.inode)
    ensures Intact(dir.(copy := copy), next2, orig)
  {
  }

  lemma DbSetAside(dir: Dir, next: nat, orig: File, schema: Schema)
    requires Intact(dir, next, orig) && InspectDb(dir.db) == DbOlder(schema) && dir.Backup(schema).None?
    ensures Intact(dir.WithBackup(schema, dir.db.value).(db := None), next, orig)
  {
  }

  lemma CopyInstalled(dir: Dir, next: nat, orig: File)
    requires Intact(dir, next, orig) && dir.db.None? && dir.copy.Some?
    ensures Intact(dir.(db := dir.copy, copy := None), next, orig)
  {
  }

  /** Setting the database aside is safe to crash after: the copy beside it is complete. */
  lemma SetAsideRecovers(dir: Dir, next: nat, orig: File, printOf: Rows -> string, schema: Schema)
    requires Recoverable(dir, next, orig, printOf) && InspectDb(dir.db) == DbOlder(schema) && dir.Backup(schema).None?
    requires dir.copy.Some? && dir.copy.value.kind.Current?
    ensures dir.db == Some(orig)
    ensures Recoverable(dir.WithBackup(schema, dir.db.value).(db := None), next, orig, printOf)
  {
    DbSetAside(dir, next, orig, schema);
  }

  lemma InstallRecovers(dir: Dir, next: nat, orig: File, printOf: Rows -> string)
    requires Recoverable(dir, next, orig, printOf) && dir.db.None? && dir.copy.Some?
    ensures Migrated(dir.(db := dir.copy, copy := None), orig, printOf)
    ensures Recoverable(dir.(db := dir.copy, copy := None), next, orig, printOf)
  {
    CopyInstalled(dir, next, orig);
  }

  /** `copy` says it was made from a `source` database with this fingerprint. */
  predicate CopyIs(copy: Option<File>, source: Schema, fingerprint: string) {
    && copy.Some?
    && var origin := InspectCopy(copy).origin;
       origin.Some? && origin.value.sourceSchema == Version(source) && MadeFrom(origin.value, fingerprint)
  }

  /** A copy that can be resumed is one of this source by this version. */
  lemma Resumes(copy: Option<File>, source: Schema, fingerprint: string)
    requires ResumableOrigin(InspectCopy(copy), source).Some?
    requires MadeFrom(ResumableOrigin(InspectCopy(copy), source).value, fingerprint)
    ensures CopyIs(copy, source, fingerprint) && InspectCopy(copy).origin.value.targetSchema == SCHEMA_VERSION
    ensures InspectCopy(copy).Incomplete? || InspectCopy(copy).Complete?
  {
  }

  lemma ResumesIff(copy: Option<File>, source: Schema, fingerprint: string)
    ensures ResumableOrigin(InspectCopy(copy), source).Some? &&
            MadeFrom(ResumableOrigin(InspectCopy(copy), source).value, fingerprint) <==>
            CopyIs(copy, source, fingerprint) &&
            InspectCopy(copy).origin.value.targetSchema == SCHEMA_VERSION
  {
  }

  lemma CopyCompletes(copy: Option<File>, db: Option<File>, source: Schema, fingerprint: string,
                      printOf: Rows -> string)
    requires CopyIs(copy, source, fingerprint) && InspectCopy(copy).Complete?
    requires InspectDb(db) == DbOlder(source) && fingerprint == printOf(db.value.kind.rows)
    ensures copy.Some? && CompleteCopyOf(copy.value, db.value, printOf)
  {
    assert Some(copy.value) == copy;
  }

  /** A copy says it was made from one fingerprint only. */
  lemma CopyOutdated(copy: Option<File>, source: Schema, fingerprint: string, now: string)
    requires CopyIs(copy, source, fingerprint) && now != fingerprint
    ensures !CopyIs(copy, source, now)
  {
  }

  function RawBytes(rows: Rows): nat {
    if rows == [] then 0 else rows[0].size + RawBytes(rows[1..])
  }

  /** What is compared of a finished copy: how many messages it holds, and how many bytes. */
  predicate Verified(copied: Rows, source: Rows) {
    |copied| == |source| && RawBytes(copied) == RawBytes(source)
  }

  lemma {:induction false} RawBytesConcat(a: Rows, b: Rows)
    ensures RawBytes(a + b) == RawBytes(a) + RawBytes(b)
  {
    if a == [] {
      assert a + b == b;
    } else {
      assert (a + b)[1..] == a[1..] + b;
      RawBytesConcat(a[1..], b);
    }
  }

  /** A finished copy passes the check, and one with rows lost or added, or with one row of another size, does not. */
  lemma VerifiedNotices(rows: Rows, more: Rows, i: nat, other: Message)
    ensures Verified(rows, rows)
    ensures more != [] ==> !Verified(rows, rows + more) && !Verified(rows + more, rows)
    ensures i < |rows| && other.size != rows[i].size ==>
              !Verified(rows[i := other], rows) && !Verified(rows, rows[i := other])
  {
    if i < |rows| {
      var a, b := rows[..i], rows[i + 1..];
      assert rows == a + ([rows[i]] + b) && rows[i := other] == a + ([other] + b);
      RawBytesConcat(a, [rows[i]] + b);
      RawBytesConcat(a, [other] + b);
      assert ([rows[i]] + b)[1..] == b && ([other] + b)[1..] == b;
    }
  }

  lemma SamePrefix(copied: Rows, source: Rows)
    ensures |source| <= |copied| && copied <= source ==> copied == source
    ensures |source| == |copied| && Extended([], copied, source) ==> copied == source
  {
  }

  /** A copy with more of the messages is still a copy of the same source. */
  lemma Grown(copy: File, more: Rows, source: Schema, fingerprint: string, orig: File, printOf: Rows -> string)
    requires CopyIs(Some(copy), source, fingerprint) && copy.kind.Building? && orig.kind.Older?
    ensures CopyIs(Some(File(copy.inode, Building(more, copy.kind.origin))), source, fingerprint)
    ensures OwnCopy(copy, orig, printOf) ==>
              copy.kind.rows <= orig.kind.rows &&
              (more <= orig.kind.rows ==>
                 OwnCopy(File(copy.inode, Building(more, copy.kind.origin)), orig, printOf))
  {
  }

  /** `copied` was carried on with what the source holds from there. */
  predicate Extended(was: Rows, copied: Rows, source: Rows) {
    copied == was || (|was| <= |copied| <= |source| && copied == was + source[|was|..|copied|])
  }

  lemma ExtendedBy(copied: Rows, source: Rows)
    ensures Extended(copied, copied, source)
  {
  }

  lemma ExtendedMore(was: Rows, copied: Rows, source: Rows, end: nat)
    requires Extended(was, copied, source) && |copied| < end <= |source|
    ensures Extended(was, copied + source[|copied|..end], source)
    ensures copied <= source ==> copied + source[|copied|..end] <= source
  {
    var n, added := |copied|, source[|copied|..end];
    if copied != was {
      assert was + source[|was|..n] + added == was + (source[|was|..n] + added);
      assert source[|was|..n] + added == source[|was|..end];
    }
    if copied <= source {
      assert copied == source[..n] && source[..n] + added == source[..end];
    }
  }

  lemma OwnBefore(dir: Dir, next: nat, orig: File, printOf: Rows -> string)
    requires Recoverable(dir, next, orig, printOf) && dir.Backup(orig.kind.schema).None?
    ensures dir.db == Some(orig) && orig.kind.Older?
    ensures dir.copy.Some? ==> OwnCopy(dir.copy.value, orig, printOf)
    ensures InspectCopy(dir.copy).Complete? ==> dir.copy.Some? && dir.copy.value.kind.Current?
  {
  }

  /** The directory of one database, under its migration lock. */
  class Folder {
    var dir: Dir
    var nextInode: nat
    const printOf: Rows -> string
    /** Nothing fails, crashes or stops the run. */
    var calm: bool
    /** Nothing outside has the files open. */
    const exclusive: bool
    /** The older database to protect, as its owner last wrote it. */
    ghost var orig: File
    ghost var renames: seq<Renaming>
    /** Every list of messages there was to take a fingerprint of. */
    ghost var lists: set<Rows>

    constructor (dir: Dir, nextInode: nat, printOf: Rows -> string, calm: bool, exclusive: bool, ghost orig: File,
                 ghost lists: set<Rows>)
      requires Intact(dir, nextInode, orig)
      ensures this.dir == dir && this.nextInode == nextInode && this.printOf == printOf
      ensures this.calm == calm && this.exclusive == exclusive && this.orig == orig && renames == []
      ensures Safe() && this.lists == lists
      ensures ListsAll(dir, lists) && Honest(dir.copy, printOf, lists) && NoCollisions(printOf, lists) ==> HonestSoFar()
    {
      this.dir, this.nextInode, this.printOf, this.orig, this.renames := dir, nextInode, printOf, orig, [];
      this.calm, this.exclusive, this.lists := calm, exclusive, lists;
    }

    ghost predicate Safe() reads this {
      orig.kind.Older? && Intact(dir, nextInode, orig) && AllHarmless(renames, printOf)
    }

    ghost predicate Resumable() reads this {
      exclusive && Recoverable(dir, nextInode, orig, printOf)
    }

    /** The copy holds what it claims, and so did every copy installed. */
    ghost predicate HonestSoFar() reads this {
      && NoCollisions(printOf, lists) && ListsAll(dir, lists)
      && Honest(dir.copy, printOf, lists) && AllMatching(renames)
    }

    /** Whether something ends the run here: an error, a crash or a stop request. */
    method Fault() returns (fault: bool)
      ensures calm ==> !fault
    {
      fault := *;
      fault := fault && !calm;
    }

    /** Replaces the copy in one committed write, or not at all; a crash may come before or after it. */
    method WriteCopy(copy: Option<File>) returns (ok: bool)
      requires Safe()
      requires copy.Some? ==>
                 copy.value.inode == nextInode || (dir.copy.Some? && copy.value.inode == dir.copy.value.inode)
      modifies `dir, `nextInode
      ensures Safe() && nextInode >= old(nextInode)
      ensures dir == old(dir).(copy := copy) || (dir == old(dir) && !ok)
      ensures calm ==> ok
      ensures old(Resumable()) && old(dir).Backup(orig.kind.schema).None? &&
              (copy.Some? ==> OwnCopy(copy.value, orig, printOf))
              ==> Resumable()
      ensures old(HonestSoFar()) && Honest(copy, printOf, lists) ==> HonestSoFar()
    {
      hide Harmless;
      var early := Fault();
      if early {
        return false;
      }
      ghost var next2 := if copy.Some? && copy.value.inode == nextInode then nextInode + 1 else nextInode;
      CopyChanged(dir, nextInode, orig, copy, next2);
      if copy.Some? && copy.value.inode == nextInode {
        nextInode := nextInode + 1;
      }
      dir := dir.(copy := copy);
      var late := Fault();
      ok := !late;
    }

    /**
     * Another program writes to the database. The lock keeps writers out while
     * a copy is made; this is one that got in before the recheck.
     */
    method OutsideWrite()
      requires Safe()
      modifies `dir, `orig, `lists
      ensures Safe()
      ensures exclusive ==> dir == old(dir) && orig == old(orig)
      ensures InspectDb(dir.db) == InspectDb(old(dir.db)) && dir == old(dir).(db := dir.db)
      ensures old(dir.db) == Some(old(orig)) <==> dir.db == Some(orig)
      ensures orig.kind.Older? && orig.kind.schema == old(orig).kind.schema
      ensures old(lists) <= lists && (exclusive ==> lists == old(lists))
      ensures old(HonestSoFar()) && NoCollisions(printOf, lists) ==> HonestSoFar()
    {
      var written := *;
      if !exclusive && written && dir.db.Some? && dir.db.value.kind.Older? {
        var rows: Rows := *;
        var was := dir.db.value;
        var file := File(was.inode, Older(was.kind.schema, rows, was.kind.origin));
        HonestStays(dir.copy, printOf, lists, lists + {rows});
        NewList(dir, file, lists);
        dir := dir.(db := Some(file));
        lists := lists + {rows};
        if Some(was) == old(dir.db) && was == orig {
          orig := file;
        }
      }
    }

    method RenameDbToBackup(schema: Schema) returns (ok: bool)
      requires Safe() && InspectDb(dir.db) == DbOlder(schema) && dir.Backup(schema).None?
      modifies `dir, `renames
      ensures Safe()
      ensures dir == old(dir).WithBackup(schema, old(dir).db.value).(db := None) || (dir == old(dir) && !ok)
      ensures renames == old(renames) + if dir == old(dir) then [] else [Renaming(Db, BackupOf(schema), old(dir))]
      ensures calm ==> ok
      ensures old(Resumable()) && old(dir).copy.Some? && old(dir).copy.value.kind.Current? ==> Resumable()
      ensures old(HonestSoFar()) ==> HonestSoFar()
    {
      hide Recoverable;
      var early := Fault();
      if early {
        return false;
      }
      DbSetAside(dir, nextInode, orig, schema);
      if Resumable() && dir.copy.Some? && dir.copy.value.kind.Current? {
        SetAsideRecovers(dir, nextInode, orig, printOf, schema);
      }
      if HonestSoFar() {
        SetAsideMatches(dir, schema, renames);
      }
      renames := renames + [Renaming(Db, BackupOf(schema), dir)];
      dir := dir.WithBackup(schema, dir.db.value).(db := None);
      var late := Fault();
      ok := !late;
    }

    method RenameCopyToDb(ghost source: Schema) returns (ok: bool)
      requires Safe() && dir.db.None? && dir.copy.Some? && dir.Backup(source).Some?
      requires CompleteCopyOf(dir.copy.value, dir.Backup(source).value, printOf)
      requires dir.Backup(source).value.kind.schema == source
      modifies `dir, `renames
      ensures Safe()
      ensures dir == old(dir).(db := old(dir).copy, copy := None) || (dir == old(dir) && !ok)
      ensures renames == old(renames) + if dir == old(dir) then [] else [Renaming(Copy, Db, old(dir))]
      ensures calm ==> ok
      ensures old(Resumable()) ==> Resumable() && (ok ==> Migrated(dir, orig, printOf))
      ensures old(HonestSoFar()) ==> HonestSoFar()
    {
      hide Recoverable;
      var early := Fault();
      if early {
        return false;
      }
      CopyInstalled(dir, nextInode, orig);
      if Resumable() {
        InstallRecovers(dir, nextInode, orig, printOf);
      }
      NoCopyIsHonest(printOf, lists);
      if HonestSoFar() {
        InstallMatches(dir, source, renames, printOf, lists);
      }
      renames := renames + [Renaming(Copy, Db, dir)];
      dir := dir.(db := dir.copy, copy := None);
      var late := Fault();
      ok := !late;
    }

    /** Some process may still have a `-wal` or `-shm` beside the files to be renamed. */
    method OpenElsewhere() returns (inUse: bool)
      ensures exclusive ==> !inUse
    {
      inUse := *;
      inUse := inUse && !exclusive;
    }

    /** Sets the database aside as its backup, then installs the copy. */
    method Swap(source: Schema) returns (end: Preparation)
      requires Safe() && InspectDb(dir.db) == DbOlder(source)
      requires dir.copy.Some? && CompleteCopyOf(dir.copy.value, dir.db.value, printOf)
      modifies `dir, `renames
      ensures Safe() && !end.Paused?
      ensures old(dir).Backup(source).Some? ==> dir == old(dir) && !end.Ready?
      ensures end.Ready? ==>
                end == Ready(true) && dir.db == old(dir.copy) && dir.Backup(source) == old(dir.db) && dir.copy == None
      ensures old(Resumable()) && old(dir).Backup(source).None? && old(dir.copy.value.kind).Current? ==>
                Resumable() && !end.Refused? && (calm ==> end.Ready?) && (end.Ready? ==> Migrated(dir, orig, printOf))
      ensures old(HonestSoFar()) ==> HonestSoFar() && (end.Ready? ==> SameRows(dir.db, dir.Backup(source)))
    {
      hide Recoverable, Intact, Harmless, AllHarmless, Migrated, Honest, AllMatching, NoCollisions;
      var inUse := OpenElsewhere();
      if inUse {
        return Refused;
      }
      if dir.Backup(source).Some? {
        return Refused;
      }
      var ok := RenameDbToBackup(source);
      if !ok {
        return Failed;
      }
      ghost var copy, backup := dir.copy, dir.Backup(source);
      if HonestSoFar() {
        HonestCopyMatches(copy, backup, printOf, lists);
      }
      ok := RenameCopyToDb(source);
      return if ok then Ready(true) else Failed;
    }

    /** Installs the copy of a swap that was cut off between its renames. */
    method FinishInterruptedSwap(origin: Origin) returns (done: bool, end: Preparation)
      requires Safe() && dir.db.None? && InspectCopy(dir.copy).Complete? && InspectCopy(dir.copy).origin == Some(origin)
      modifies `dir, `renames
      ensures Safe()
      ensures done ==> dir == old(dir).(db := old(dir).copy, copy := None)
      ensures !done ==> end.Refused? || end.Failed?
      ensures old(Resumable()) ==>
                Resumable() && (calm ==> done) && (done ==> Migrated(dir, orig, printOf)) && (!done ==> end.Failed?)
      ensures old(HonestSoFar()) ==> HonestSoFar()
    {
      done, end := false, Refused;
      var source := FromVersion(origin.sourceSchema);
      if source.None? {
        return;
      }
      var backup := dir.Backup(source.value);
      if backup.None? {
        return;
      }
      if InspectDb(backup) != DbOlder(source.value) {
        end := Failed;
        return;
      }
      if !MadeFrom(origin, printOf(backup.value.kind.rows)) {
        return;
      }
      var inUse := OpenElsewhere();
      if inUse {
        return;
      }
      done := RenameCopyToDb(source.value);
      end := Failed;
    }

    /** Whether the database is `orig`, which the copy being built was made from by this version. */
    ghost predicate Own(fingerprint: string) reads this {
      Resumable() && dir.Backup(orig.kind.schema).None? && dir.db == Some(orig) &&
        fingerprint == printOf(orig.kind.rows)
    }

    /** The copy being built holds the first messages of the database, whose fingerprint it claims. */
    ghost predicate HonestCopyOf(source: Schema, fingerprint: string) reads this {
      && HonestSoFar() && InspectDb(dir.db) == DbOlder(source) && fingerprint == printOf(dir.db.value.kind.rows)
      && dir.copy.Some? && dir.copy.value.kind.Building? && dir.copy.value.kind.rows <= dir.db.value.kind.rows
    }

    /** Copies the next messages and commits. */
    method CopyBatch(source: Schema, fingerprint: string) returns (ok: bool)
      requires Safe() && InspectDb(dir.db) == DbOlder(source)
      requires dir.copy.Some? && dir.copy.value.kind.Building? && CopyIs(dir.copy, source, fingerprint)
      requires |dir.copy.value.kind.rows| < |dir.db.value.kind.rows|
      modifies `dir, `nextInode
      ensures Safe() && nextInode >= old(nextInode) && dir == old(dir).(copy := dir.copy)
      ensures dir.copy.Some? && dir.copy.value.kind.Building? && CopyIs(dir.copy, source, fingerprint)
      ensures dir.copy.value.inode == old(dir.copy.value.inode)
      ensures forall was :: Extended(was, old(dir.copy.value.kind.rows), dir.db.value.kind.rows) ==>
                Extended(was, dir.copy.value.kind.rows, dir.db.value.kind.rows)
      ensures ok ==> |dir.copy.value.kind.rows| > |old(dir.copy.value.kind.rows)|
      ensures old(Own(fingerprint)) ==> Own(fingerprint)
      ensures old(HonestCopyOf(source, fingerprint)) ==> HonestCopyOf(source, fingerprint)
      ensures calm ==> ok
    {
      hide Intact, Harmless, AllHarmless, Migrated, AllMatching, NoCollisions, Honest;
      hide CopyIs, OwnCopy, InspectCopy, Recoverable, Extended, OwnOrigin;
      var rows, copied := dir.db.value.kind.rows, dir.copy.value.kind.rows;
      var batchEnd: nat := *;
      if batchEnd <= |copied| || |rows| < batchEnd {
        batchEnd := |copied| + 1;
      }
      var more := copied + rows[|copied|..batchEnd];
      forall was | Extended(was, copied, rows) ensures Extended(was, more, rows) {
        ExtendedMore(was, copied, rows, batchEnd);
      }
      ExtendedBy(copied, rows);
      ExtendedMore(copied, copied, rows, batchEnd);
      var next := Some(File(dir.copy.value.inode, Building(more, dir.copy.value.kind.origin)));
      Grown(dir.copy.value, more, source, fingerprint, orig, printOf);
      if Own(fingerprint) {
        OwnBefore(dir, nextInode, orig, printOf);
      }
      if HonestCopyOf(source, fingerprint) {
        PartIsHonest(next, source, rows, printOf, lists);
      }
      ok := WriteCopy(next);
    }

    /** Copies the messages still missing, one committed batch at a time. */
    method CopyRows(source: Schema, fingerprint: string) returns (end: BuildEnd)
      requires Safe() && InspectDb(dir.db) == DbOlder(source)
      requires dir.copy.Some? && dir.copy.value.kind.Building? && CopyIs(dir.copy, source, fingerprint)
      modifies `dir, `nextInode
      ensures Safe() && nextInode >= old(nextInode) && dir == old(dir).(copy := dir.copy)
      ensures dir.copy.Some? && dir.copy.value.kind.Building? && CopyIs(dir.copy, source, fingerprint)
      ensures Extended(old(dir.copy.value.kind.rows), dir.copy.value.kind.rows, dir.db.value.kind.rows)
      ensures dir.copy.value.inode == old(dir.copy.value.inode)
      ensures end.Built? ==> |dir.copy.value.kind.rows| >= |dir.db.value.kind.rows|
      ensures old(Own(fingerprint)) ==> Own(fingerprint)
      ensures old(HonestCopyOf(source, fingerprint)) ==> HonestCopyOf(source, fingerprint)
      ensures calm ==> end.Built?
    {
      hide Intact, Harmless, AllHarmless, Migrated, AllMatching, NoCollisions, Honest;
      hide CopyIs, OwnCopy, InspectCopy, Recoverable, Extended, OwnOrigin;
      ghost var start := dir.copy.value.kind.rows;
      ExtendedBy(start, dir.db.value.kind.rows);
      while true
        invariant Safe() && nextInode >= old(nextInode) && dir == old(dir).(copy := dir.copy)
        invariant dir.copy.Some? && dir.copy.value.kind.Building? && CopyIs(dir.copy, source, fingerprint)
        invariant Extended(start, dir.copy.value.kind.rows, dir.db.value.kind.rows)
        invariant dir.copy.value.inode == old(dir.copy.value.inode)
        invariant old(Own(fingerprint)) ==> Own(fingerprint)
        invariant old(HonestCopyOf(source, fingerprint)) ==> HonestCopyOf(source, fingerprint)
        decreases |dir.db.value.kind.rows| - |dir.copy.value.kind.rows|
      {
        var stop := Fault();
        if stop {
          return StopRequested;
        }
        if |dir.copy.value.kind.rows| >= |dir.db.value.kind.rows| {
          return Built;
        }
        var ok := CopyBatch(source, fingerprint);
        if !ok {
          return Interrupted;
        }
      }
    }

    /** Copies, verifies and finalizes a copy of `db`, from scratch or from where an earlier run left it. */
    method Build(restart: bool, source: Schema, fingerprint: string) returns (end: BuildEnd)
      requires Safe() && InspectDb(dir.db) == DbOlder(source)
      requires if restart then dir.copy.None?
               else InspectCopy(dir.copy).Incomplete? && CopyIs(dir.copy, source, fingerprint)
      modifies `dir, `nextInode
      ensures Safe() && nextInode >= old(nextInode) && dir == old(dir).(copy := dir.copy)
      ensures end.Built? ==> dir.copy.Some? && dir.copy.value.kind.Current? && CopyIs(dir.copy, source, fingerprint)
      ensures end.Built? ==> InspectCopy(dir.copy).Complete?
      ensures end.Built? ==> Verified(dir.copy.value.kind.rows, dir.db.value.kind.rows)
      ensures end.Built? && restart ==> dir.copy.value.kind.rows == dir.db.value.kind.rows
      ensures !restart ==> Grows(old(dir), dir)
      ensures old(Own(fingerprint)) ==> Own(fingerprint) && (calm ==> end.Built?)
      ensures old(HonestSoFar()) && fingerprint == printOf(dir.db.value.kind.rows) ==>
                HonestSoFar() && (end.Built? ==> dir.copy.value.kind.rows == dir.db.value.kind.rows)
    {
      hide Intact, Harmless, AllHarmless, Migrated, AllMatching, NoCollisions, Honest, RawBytes;
      ghost var honest := HonestSoFar() && fingerprint == printOf(dir.db.value.kind.rows);
      if restart {
        EmptyIsHonest(Some(File(nextInode, Empty)), printOf, lists);
        var ok := WriteCopy(Some(File(nextInode, Empty)));
        if !ok {
          return Interrupted;
        }
        var origin := Origin(Qualified(SCHEMA_VERSION, fingerprint), Version(source), SCHEMA_VERSION);
        var begun := Some(File(dir.copy.value.inode, Building([], Some(origin))));
        if honest {
          PartIsHonest(begun, source, dir.db.value.kind.rows, printOf, lists);
        }
        ok := WriteCopy(begun);
        if !ok {
          return Interrupted;
        }
      }
      if !dir.copy.value.kind.Building? {
        return Interrupted;
      }
      if honest {
        HonestPart(dir.copy, source, dir.db.value.kind.rows, printOf, lists);
      }
      end := CopyRows(source, fingerprint);
      if !end.Built? {
        return;
      }
      var copied := dir.copy.value.kind.rows;
      SamePrefix(copied, dir.db.value.kind.rows);
      if !Verified(copied, dir.db.value.kind.rows) {
        return Interrupted;
      }
      var whole := Some(File(dir.copy.value.inode, Current(copied, dir.copy.value.kind.origin)));
      if honest {
        WholeIsHonest(whole, source, dir.db.value.kind.rows, printOf, lists);
      }
      var ok := WriteCopy(whole);
      end := if ok then Built else Interrupted;
    }

    /** Makes an origin an older version stored bare one only this version takes for its own. */
    method QualifyOrigin(source: Schema, fingerprint: string) returns (ok: bool)
      requires Safe() && CopyIs(dir.copy, source, fingerprint)
      requires InspectCopy(dir.copy).origin.value.targetSchema == SCHEMA_VERSION
      modifies `dir, `nextInode
      ensures Safe() && nextInode >= old(nextInode) && dir == old(dir).(copy := dir.copy)
      ensures dir.copy.Some? && CopyIs(dir.copy, source, fingerprint)
      ensures InspectCopy(dir.copy).Complete? <==> InspectCopy(old(dir.copy)).Complete?
      ensures InspectCopy(dir.copy).Incomplete? <==> InspectCopy(old(dir.copy)).Incomplete?
      ensures dir.copy.value.kind.Current? <==> old(dir.copy.value.kind).Current?
      ensures ok ==> InspectCopy(dir.copy).origin.value.fingerprint == Qualified(SCHEMA_VERSION, fingerprint)
      ensures old(dir.copy.value.kind).Building? ==>
                dir.copy.value.inode == old(dir.copy.value.inode) &&
                dir.copy.value.kind.Building? && dir.copy.value.kind.rows == old(dir.copy.value.kind.rows)
      ensures old(Own(fingerprint)) ==> Own(fingerprint)
      ensures calm ==> ok
      ensures old(HonestSoFar()) ==> HonestSoFar()
    {
      hide Intact, Harmless, AllHarmless, Migrated, AllMatching;
      ok := true;
      var origin := InspectCopy(dir.copy).origin.value;
      if origin.fingerprint == Bare(fingerprint) {
        var qualified := origin.(fingerprint := Qualified(SCHEMA_VERSION, fingerprint));
        if HonestSoFar() {
          QualifiedIsHonest(dir.copy.value, origin, fingerprint, printOf, lists);
        }
        ok := WriteCopy(Some(File(dir.copy.value.inode, WithOrigin(dir.copy.value.kind, qualified))));
      }
    }

    /** The copy is the file it was, and holds what it held, followed by more of the database. */
    predicate Grows(was: Dir, now: Dir) {
      was.copy.Some? && was.copy.value.kind.Building? ==>
        && now.copy.Some? && now.copy.value.inode == was.copy.value.inode
        && (now.copy.value.kind.Building? || now.copy.value.kind.Current?)
        && now.db.Some? && now.db.value.kind.Older?
        && Extended(was.copy.value.kind.rows, now.copy.value.kind.rows, now.db.value.kind.rows)
    }

    /** How to begin: on the copy found, if it was made from the database as it is, or afresh. */
    method FirstStart(source: Schema, copy: CopyState, fingerprint: string) returns (ok: bool, start: Start)
      requires Safe() && InspectDb(dir.db) == DbOlder(source) && copy == InspectCopy(dir.copy)
      modifies `dir, `nextInode
      ensures Safe() && dir == old(dir).(copy := dir.copy)
      ensures old(HonestSoFar()) ==> HonestSoFar()
      ensures old(Resumable() && dir.Backup(orig.kind.schema).None?) && fingerprint == printOf(orig.kind.rows) ==>
                Own(fingerprint) && (start.Finished? ==> dir.copy.Some? && dir.copy.value.kind.Current?)
      ensures Startable(start, source, fingerprint)
      ensures start.Fresh? <==>
                !CopyIs(old(dir).copy, source, fingerprint) ||
                InspectCopy(old(dir).copy).origin.value.targetSchema != SCHEMA_VERSION
      ensures start.Fresh? ==> dir == old(dir)
      ensures !start.Fresh? ==> Grows(old(dir), dir)
      ensures ok && !start.Fresh? ==>
                InspectCopy(dir.copy).origin.value.fingerprint == Qualified(SCHEMA_VERSION, fingerprint)
      ensures calm ==> ok
    {
      hide Intact, Harmless, AllHarmless, Migrated, Recoverable, AllMatching, MadeFrom, CopyIs, Honest, OwnCopy;
      hide InspectCopy, ResumableOrigin, NoCollisions, ListsAll;
      if Resumable() && dir.Backup(orig.kind.schema).None? {
        OwnBefore(dir, nextInode, orig, printOf);
      }
      ok, start := true, Fresh;
      ResumesIff(dir.copy, source, fingerprint);
      var resumable := ResumableOrigin(copy, source);
      if resumable.Some? && MadeFrom(resumable.value, fingerprint) {
        Resumes(dir.copy, source, fingerprint);
        ok := QualifyOrigin(source, fingerprint);
        if dir.copy.value.kind.Building? {
          ExtendedBy(dir.copy.value.kind.rows, dir.db.value.kind.rows);
        }
        start := if copy.Incomplete? then Resume else Finished;
      }
    }

    /** What a build may start from. */
    ghost predicate Startable(start: Start, source: Schema, fingerprint: string) reads this {
      && (!start.Fresh? ==> CopyIs(dir.copy, source, fingerprint))
      && (start.Resume? ==> InspectCopy(dir.copy).Incomplete?)
      && (start.Finished? ==> InspectCopy(dir.copy).Complete?)
    }

    /** One build of the copy, unless it is finished. */
    method BuildOnce(start: Start, source: Schema, fingerprint: string) returns (end: BuildEnd)
      requires Safe() && InspectDb(dir.db) == DbOlder(source) && fingerprint == printOf(dir.db.value.kind.rows)
      requires Startable(start, source, fingerprint)
      modifies `dir, `nextInode
      ensures Safe() && dir == old(dir).(copy := dir.copy)
      ensures end.Built? ==> CopyIs(dir.copy, source, fingerprint) && InspectCopy(dir.copy).Complete?
      ensures (!start.Fresh? ==> Grows(old(dir), dir)) && (start.Finished? ==> dir == old(dir) && end.Built?)
      ensures old(HonestSoFar()) ==> HonestSoFar()
      ensures old(Own(fingerprint)) ==> Own(fingerprint) && (calm ==> end.Built?)
      ensures end.Built? && (start.Finished? ==> old(dir).copy.Some? && old(dir).copy.value.kind.Current?) ==>
                dir.copy.Some? && dir.copy.value.kind.Current?
    {
      hide Intact, Harmless, AllHarmless, Migrated, Recoverable, AllMatching, MadeFrom, CopyIs, Honest, OwnCopy;
      hide InspectCopy, NoCollisions, Verified, ListsAll;
      if start.Finished? {
        return Built;
      }
      if start.Fresh? {
        NoCopyIsHonest(printOf, lists);
        var ok := WriteCopy(None);
        if !ok {
          return Interrupted;
        }
      }
      end := Build(start.Fresh?, source, fingerprint);
    }

    /** Builds or completes the copy while the database is locked against writers. */
    method BuildLocked(source: Schema, copy: CopyState) returns (r: Locked)
      requires Safe() && InspectDb(dir.db) == DbOlder(source) && copy == InspectCopy(dir.copy)
      modifies `dir, `nextInode, `orig, `lists
      ensures Safe() && InspectDb(dir.db) == DbOlder(source) && orig.kind.Older?
      ensures dir.legacyBackup == old(dir).legacyBackup && dir.previousBackup == old(dir).previousBackup
      ensures exclusive ==> dir.db == old(dir).db && orig == old(orig)
      ensures r.Swappable? ==> dir.copy.Some? && CompleteCopyOf(dir.copy.value, dir.db.value, printOf)
      ensures r.Stopped? ==> !r.end.Ready?
      ensures r == Stopped(Refused) ==> !exclusive && !CopyIs(dir.copy, source, printOf(dir.db.value.kind.rows))
      ensures old(HonestSoFar()) && NoCollisions(printOf, lists) ==> HonestSoFar()
      ensures old(Resumable() && orig.kind.Older? && dir.Backup(orig.kind.schema).None?) ==>
                && Resumable() && (r.Stopped? ==> !r.end.Refused?)
                && (r.Swappable? ==> dir.copy.value.kind.Current?) && (calm ==> r.Swappable?)
      ensures old(lists) <= lists
    {
      hide Intact, Harmless, AllHarmless, Migrated, Recoverable, AllMatching, MadeFrom, CopyIs, CompleteCopyOf;
      hide InspectCopy, Honest, OwnCopy, NoCollisions, ListsAll;
      ghost var own := Resumable() && orig.kind.Older? && dir.Backup(orig.kind.schema).None?;
      if own {
        OwnBefore(dir, nextInode, orig, printOf);
      }
      var fingerprint := printOf(dir.db.value.kind.rows);
      var ok, start := FirstStart(source, copy, fingerprint);
      if !ok {
        return Stopped(Failed);
      }
      var attempt := 1;
      while attempt <= MAX_BUILD_ATTEMPTS
        invariant Safe() && InspectDb(dir.db) == DbOlder(source) && orig.kind.Older?
        invariant dir.legacyBackup == old(dir).legacyBackup && dir.previousBackup == old(dir).previousBackup
        invariant exclusive ==> dir.db == old(dir).db && orig == old(orig)
        invariant own ==> Own(fingerprint)
        invariant fingerprint == printOf(dir.db.value.kind.rows)
        invariant exclusive ==> attempt == 1
        invariant attempt > 1 ==> !CopyIs(dir.copy, source, fingerprint)
        invariant old(lists) <= lists && (old(HonestSoFar()) && NoCollisions(printOf, lists) ==> HonestSoFar())
        invariant own && start == Finished ==> dir.copy.Some? && dir.copy.value.kind.Current?
        invariant Startable(start, source, fingerprint)
      {
        var end := BuildOnce(start, source, fingerprint);
        if end.StopRequested? {
          return Stopped(Paused);
        }
        if end.Interrupted? {
          return Stopped(Failed);
        }
        ghost var were := lists;
        OutsideWrite();
        if NoCollisions(printOf, lists) {
          FewerCollisions(printOf, were, lists);
        }
        var now := printOf(dir.db.value.kind.rows);
        if now == fingerprint {
          CopyCompletes(dir.copy, dir.db, source, fingerprint, printOf);
          return Swappable;
        }
        CopyOutdated(dir.copy, source, fingerprint, now);
        fingerprint := now;
        start := Fresh;
        attempt := attempt + 1;
      }
      return Stopped(Refused);
    }

    /** Builds the copy of an older database under the lock, and swaps it in. */
    method MigrationRun(source: Schema, copy: CopyState) returns (end: Preparation)
      requires Safe() && InspectDb(dir.db) == DbOlder(source) && copy == InspectCopy(dir.copy) &&
               dir.Backup(source).None?
      modifies `dir, `nextInode, `orig, `lists, `renames
      ensures Safe() && (exclusive ==> orig == old(orig))
      ensures old(Resumable()) ==> Resumable() && !end.Refused? && (calm ==> end.Ready?)
      ensures old(Resumable()) && end.Ready? ==> Migrated(dir, orig, printOf)
      ensures old(HonestSoFar()) && NoCollisions(printOf, lists) ==>
                HonestSoFar() && (end.Ready? ==> SameRows(dir.db, dir.Backup(source)))
      ensures old(lists) <= lists
    {
      hide Intact, Harmless, AllHarmless, Migrated, Recoverable, AllMatching;
      if Resumable() {
        OlderIsOwn(dir, nextInode, orig, printOf, source);
      }
      var fault := Fault();
      if fault {
        return Failed;
      }
      var built := BuildLocked(source, copy);
      if built.Stopped? {
        return built.end;
      }
      fault := Fault();
      if fault {
        return Failed;
      }
      end := Swap(source);
    }

    /** Resolves whatever an earlier run left, migrating an older database. */
    method PrepareWith() returns (end: Preparation)
      requires Safe()
      modifies `dir, `nextInode, `orig, `lists, `renames
      ensures Safe() && (exclusive ==> orig == old(orig))
      ensures old(Resumable()) ==> Resumable() && !end.Refused? && (calm ==> end.Ready?)
      ensures old(Resumable()) && end.Ready? ==> Migrated(dir, orig, printOf)
      ensures old(HonestSoFar()) && NoCollisions(printOf, lists) ==> HonestSoFar()
      ensures old(lists) <= lists
    {
      hide Intact, Harmless, AllHarmless, Migrated, Recoverable, AllMatching;
      while true
        invariant Safe() && (exclusive ==> orig == old(orig))
        invariant old(Resumable()) ==> Resumable()
        invariant old(lists) <= lists && (old(HonestSoFar()) && NoCollisions(printOf, lists) ==> HonestSoFar())
        decreases if dir.copy.Some? then 1 else 0
      {
        if Resumable() {
          RecoverableStates(dir, nextInode, orig, printOf);
        }
        var fault := Fault();
        if fault {
          return Failed;
        }
        var db := InspectDb(dir.db);
        var copy := InspectCopy(dir.copy);
        if db.DbUnrecognized? {
          return Failed;
        }
        var anyBackup := dir.legacyBackup.Some? || dir.previousBackup.Some?;
        if (db.DbAbsent? || db.DbEmpty?) && copy.CopyAbsent? && !anyBackup {
          return Ready(false);
        } else if db.DbCurrent? && copy.CopyAbsent? {
          return Ready(false);
        } else if db.DbCurrent? {
          return Refused;
        } else if db.DbOlder? {
          if dir.Backup(db.schema).Some? {
            return Refused;
          }
          end := MigrationRun(db.schema, copy);
          return;
        } else if db.DbAbsent? && copy.Complete? && copy.origin.Some? &&
          FromVersion(copy.origin.value.sourceSchema).Some? {
          var done;
          done, end := FinishInterruptedSwap(copy.origin.value);
          if !done {
            return;
          }
        } else {
          return Refused;
        }
      }
    }
  }

  /**
   * An older database with no copy and no backup beside it survives any number
   * of starts that fail, crash or stop at any point, and the next start that
   * runs to its end leaves it as the backup of a current database with the
   * same messages.
   */
  method SurvivesCrashes(folder: Folder, starts: nat) returns (end: Preparation)
    requires folder.Safe() && folder.exclusive && folder.renames == []
    requires folder.dir.Backup(folder.orig.kind.schema).None? && folder.dir.copy.None?
    modifies folder
    ensures folder.Safe() && end.Ready? && folder.orig == old(folder.orig)
    ensures Migrated(folder.dir, folder.orig, folder.printOf)
  {
    hide Intact, Migrated;
    folder.calm := false;
    var n := 0;
    while n < starts
      invariant folder.Safe() && folder.Resumable() && folder.orig == old(folder.orig)
    {
      var interrupted := folder.PrepareWith();
      n := n + 1;
    }
    folder.calm := true;
    end := folder.PrepareWith();
  }

  /** With no two fingerprints colliding, every database installed holds the messages of a backup beside it. */
  lemma InstalledRows(folder: Folder, i: nat) returns (schema: Schema)
    requires folder.HonestSoFar() && i < |folder.renames| && folder.renames[i].to == Db
    ensures var before := folder.renames[i].before;
            && before.copy.Some? && before.Backup(schema).Some?
            && SameRows(before.copy, before.Backup(schema))
  {
    hide Honest, InspectCopy;
    assert Matching(folder.renames[i]);
    schema :| SameRows(folder.renames[i].before.copy, folder.renames[i].before.Backup(schema));
  }

  lemma OlderIsOwn(dir: Dir, next: nat, orig: File, printOf: Rows -> string, source: Schema)
    requires Recoverable(dir, next, orig, printOf) && InspectDb(dir.db) == DbOlder(source)
    ensures orig.kind.Older? && dir.Backup(orig.kind.schema).None? && source == orig.kind.schema
  {
  }

  /** The states a crash can leave, as the next start sees them. */
  lemma RecoverableStates(dir: Dir, next: nat, orig: File, printOf: Rows -> string)
    requires Recoverable(dir, next, orig, printOf)
    ensures orig.kind.Older?
    ensures || (InspectDb(dir.db) == DbOlder(orig.kind.schema) && dir.Backup(orig.kind.schema).None?)
            || (dir.db.None? && InspectCopy(dir.copy) == Complete(SCHEMA_VERSION, Some(OwnOrigin(orig, printOf))))
            || (InspectDb(dir.db).DbCurrent? && dir.copy.None? && Migrated(dir, orig, printOf))
  {
  }
}
