/**
  A FAT volume behind its read cache (`Volume` in `fs.rs`), the writer that shares it (`fs_writer.rs`)
  and the FAT primitives under both (`fs_backend_fat.rs`). The filesystem is a map from names to
  nodes, and FAT names ignore case; the cache compares paths exactly. What the firmware does during
  a write is part of the operation.
*/
module EspVolume {
  import opened Orders
  import opened LittleEndian
  import opened ReadCache
  import Paths

  /** 512 MiB: the largest file that a full read allocates for. */
  const MAX_BOOT_FILE: nat := 512 * 1024 * 1024

  /** The lengths a buffer can have. */
  type Length = n: nat | n <= 0x7FFF_FFFF_FFFF_FFFF

  datatype Node = File(data: seq<byte>) | Directory

  type Store = map<string, Node>

  datatype FsError = NotFound | IsDirectory | TooLarge | Io | InvalidPath(path: Paths.PathError)

  datatype Result<+T> = Ok(value: T) | Err(error: FsError)

  /** The file a path names. */
  function Name(path: string): string { Lower(path) }

  // ---------------------------------------------------------------------------
  // Reads without a cache
  // ---------------------------------------------------------------------------

  /** The part of a file that a read asks for; the largest offset stands for the end of the file. */
  function Cut(data: seq<byte>, key: Key): Result<seq<byte>> {
    if key == FullRead(key.path) then if |data| > MAX_BOOT_FILE then Err(TooLarge) else Ok(data)
    else
      var at := if key.offset == USIZE_MAX then |data| else key.offset;
      if at > |data| then Err(Io) else Ok(data[at..Min(at + key.len, |data|)])
  }

  /** What the filesystem itself answers to the read that a cache key stands for. */
  function Answer(store: Store, key: Key): Result<seq<byte>> {
    if Name(key.path) !in store then Err(NotFound)
    else match store[Name(key.path)]
      case Directory => Err(IsDirectory)
      case File(data) => Cut(data, key)
  }

  function ReadFile(store: Store, path: string): Result<seq<byte>> { Answer(store, FullRead(path)) }

  /** The path names a file with this content. */
  predicate IsFile(store: Store, path: string, data: seq<byte>) {
    Name(path) in store && store[Name(path)] == File(data)
  }

  /** A range read gives the bytes from its offset on, as many as it asks for or there are; past the end it fails. */
  lemma RangeRead(store: Store, path: string, data: seq<byte>, offset: nat, len: Length)
    requires IsFile(store, path, data) && offset < USIZE_MAX
    ensures var r := Answer(store, Key(path, offset, len));
      if offset > |data| then r == Err(Io)
      else
        && r.Ok? && |r.value| == Min(len, |data| - offset)
        && forall i | 0 <= i < |r.value| :: r.value[i] == data[offset + i]
  {
  }

  /** Adjacent range reads make one. */
  lemma AdjacentReads(store: Store, path: string, data: seq<byte>, offset: nat, m: Length, n: Length)
    requires IsFile(store, path, data) && offset + m <= |data| && offset + m < USIZE_MAX
    requires m + n <= 0x7FFF_FFFF_FFFF_FFFF
    ensures var a, b := Answer(store, Key(path, offset, m)), Answer(store, Key(path, offset + m, n));
      a.Ok? && b.Ok? && Answer(store, Key(path, offset, m + n)) == Ok(a.value + b.value)
  {
    var end := Min(offset + m + n, |data|);
    assert data[offset..end] == data[offset..offset + m] + data[offset + m..end];
  }

  /** What range reads of these lengths give, one after the other from `offset` on. */
  function ReadRun(store: Store, path: string, offset: nat, lens: seq<Length>): Result<seq<byte>>
    decreases |lens|
  {
    if |lens| == 0 then Ok([])
    else
      var first, rest := Answer(store, Key(path, offset, lens[0])), ReadRun(store, path, offset + lens[0], lens[1..]);
      if first.Err? then first else if rest.Err? then rest else Ok(first.value + rest.value)
  }

  function Sum(lens: seq<Length>): nat { if |lens| == 0 then 0 else lens[0] + Sum(lens[1..]) }

  lemma {:induction false} RunOfReads(store: Store, path: string, data: seq<byte>, offset: nat, lens: seq<Length>)
    requires IsFile(store, path, data) && offset + Sum(lens) <= |data| < USIZE_MAX
    ensures ReadRun(store, path, offset, lens) == Ok(data[offset..offset + Sum(lens)])
    decreases |lens|
  {
    if |lens| == 0 {
      assert data[offset..offset] == [];
    } else {
      var mid, end := offset + lens[0], offset + Sum(lens);
      RunOfReads(store, path, data, mid, lens[1..]);
      assert data[offset..end] == data[offset..mid] + data[mid..end];
    }
  }

  /** Range reads that cover a file give what a full read gives. */
  lemma {:induction false} CoveringReads(store: Store, path: string, data: seq<byte>, lens: seq<Length>)
    requires IsFile(store, path, data) && Sum(lens) == |data| <= MAX_BOOT_FILE
    ensures ReadRun(store, path, 0, lens) == ReadFile(store, path) == Ok(data)
  {
    RunOfReads(store, path, data, 0, lens);
    assert data[0..|data|] == data;
  }

  /** How the firmware delivers what a read asks for. */
  datatype Delivery = Complete | Failed | Short(n: nat)

  function Delivered(answer: Result<seq<byte>>, d: Delivery): Result<seq<byte>> {
    match d
    case Complete => answer
    case Failed => Err(Io)
    case Short(n) => if answer.Err? then answer else Ok(answer.value[..Min(n, |answer.value|)])
  }

  // ---------------------------------------------------------------------------
  // FAT primitives
  // ---------------------------------------------------------------------------

  /** What the firmware does during one operation. */
  datatype Fate = Fate(
    opens: bool,            // the volume
    deletes: bool,          // an existing file that is to be replaced
    creates: bool,          // or opens the file for writing
    seeks: bool,            // to its end
    written: Option<nat>)   // all of the data, or a failure after so many bytes

  const COMPLETES := Fate(true, true, true, true, None)

  /** The same without the preparatory delete, whose failure is ignored. */
  const KEEPS_TAIL := COMPLETES.(deletes := false)

  /** The bytes that reach the file. */
  function Arrived(data: seq<byte>, fate: Fate): seq<byte> {
    if fate.written.None? then data else data[..Min(fate.written.value, |data|)]
  }

  function Status(fate: Fate): Result<()> { if fate.written.None? then Ok(()) else Err(Io) }

  datatype Change = Change(store: Store, result: Result<()>)

  predicate IsDirectoryAt(store: Store, name: string) { name in store && store[name].Directory? }

  function ContentAt(store: Store, name: string): seq<byte>
    requires !IsDirectoryAt(store, name)
  {
    if name in store then store[name].data else []
  }

  /** `data` written over the start of a file that is not truncated. */
  function Overlay(before: seq<byte>, data: seq<byte>): seq<byte> {
    if |before| <= |data| then data else data + before[|data|..]
  }

  /** `fat_write`: delete, create, write. */
  function FatWrite(store: Store, path: string, data: seq<byte>, fate: Fate): Change {
    var name := Name(path);
    if !fate.opens then Change(store, Err(Io))
    else if IsDirectoryAt(store, name) then Change(store, Err(if fate.creates then IsDirectory else Io))
    else
      var cleared := if fate.deletes then store - {name} else store;
      if !fate.creates then Change(cleared, Err(Io))
      else Change(cleared[name := File(Overlay(ContentAt(cleared, name), Arrived(data, fate)))], Status(fate))
  }

  /** `fat_append`: read what is there, append, write it all back. */
  function FatAppend(store: Store, path: string, data: seq<byte>, d: Delivery, fate: Fate): Change {
    match Delivered(ReadFile(store, path), d)
    case Ok(existing) => FatWrite(store, path, existing + data, fate)
    case Err(NotFound) => FatWrite(store, path, data, fate)
    case Err(e) => Change(store, Err(e))
  }

  /** `fat_true_append`: create if missing, seek to the end, write only the new bytes. */
  function FatTrueAppend(store: Store, path: string, data: seq<byte>, fate: Fate): Change {
    var name := Name(path);
    if !fate.opens then Change(store, Err(Io))
    else if IsDirectoryAt(store, name) then Change(store, Err(if fate.creates then IsDirectory else Io))
    else if !fate.creates then Change(store, Err(Io))
    else
      var existing := ContentAt(store, name);
      if !fate.seeks then Change(store[name := File(existing)], Err(Io))
      else Change(store[name := File(existing + Arrived(data, fate))], Status(fate))
  }

  /** `fat_delete`. */
  function FatDelete(store: Store, path: string, refused: bool): Change {
    var name := Name(path);
    if name !in store then Change(store, Err(NotFound))
    else if store[name].Directory? then Change(store, Err(IsDirectory))
    else if refused then Change(store, Err(Io))
    else Change(store - {name}, Ok(()))
  }

  /** `fat_ensure_dir`. */
  function FatEnsureDir(store: Store, path: string, refused: bool): Change {
    if refused then Change(store, Err(Io))
    else if Name(path) in store then Change(store, Ok(()))
    else Change(store[Name(path) := Directory], Ok(()))
  }

  /** `fat_rename` between two full paths: copy what is read, then delete the old file. */
  function FatRename(store: Store, from: string, to: string, d: Delivery, fate: Fate, refused: bool): Change {
    match Delivered(ReadFile(store, from), d)
    case Err(e) => Change(store, Err(e))
    case Ok(content) =>
      var written := FatWrite(store, to, content, fate);
      if written.result.Err? then written
      else if refused then Change(written.store, Err(Io))
      else Change(written.store - {Name(from)}, Ok(()))
  }

  // ---------------------------------------------------------------------------
  // A volume and its steps
  // ---------------------------------------------------------------------------

  datatype WriterOp =
    | Write(path: string, data: seq<byte>, fate: Fate)
    | Append(path: string, data: seq<byte>, d: Delivery, fate: Fate)
    | TrueAppend(path: string, data: seq<byte>, fate: Fate)
    | Rename(path: string, to: string, d: Delivery, fate: Fate, refused: bool)
    | EnsureDir(path: string, refused: bool)
    | Delete(path: string, refused: bool)
  {
    function Perform(store: Store): Change {
      match this
      case Write(path, data, fate) => FatWrite(store, path, data, fate)
      case Append(path, data, d, fate) => FatAppend(store, path, data, d, fate)
      case TrueAppend(path, data, fate) => FatTrueAppend(store, path, data, fate)
      case Rename(path, to, d, fate, refused) => FatRename(store, path, to, d, fate, refused)
      case EnsureDir(path, refused) => FatEnsureDir(store, path, refused)
      case Delete(path, refused) => FatDelete(store, path, refused)
    }

    predicate Touches(name: string) {
      name == Name(path) || (Rename? && name == Name(to))
    }

    /** Success invalidates these paths. */
    predicate Invalidates(p: string) {
      p == path || (Rename? && p == to)
    }
  }

  datatype State = State(store: Store, entries: seq<Entry>)

  datatype ReadOutcome = ReadOutcome(state: State, result: Result<seq<byte>>)

  /** A hit is answered from the cache; a miss is read and what is delivered is inserted. */
  function CachedRead(s: State, key: Key, d: Delivery): ReadOutcome {
    match Lookup(s.entries, key)
    case Some(data) => ReadOutcome(s.(entries := Touched(s.entries, key)), Ok(data))
    case None =>
      match Delivered(Answer(s.store, key), d)
      case Err(e) => ReadOutcome(s, Err(e))
      case Ok(data) => ReadOutcome(s.(entries := Inserted(s.entries, key, data)), Ok(data))
  }

  /** What was read and fits is read again the same, whatever the firmware then does and the files then hold. */
  lemma SecondReadHits(s: State, key: Key, d: Delivery, store: Store, d': Delivery)
    requires CachedRead(s, key, d).result.Ok? && |CachedRead(s, key, d).result.value| <= LIMIT
    ensures var once := CachedRead(s, key, d);
      CachedRead(State(store, once.state.entries), key, d').result == once.result
  {
  }

  /** A write invalidates only after it has succeeded. */
  function Written(s: State, op: WriterOp): State {
    var change := op.Perform(s.store);
    if change.result.Err? then State(change.store, s.entries)
    else
      var once := Without(s.entries, op.path);
      State(change.store, if op.Rename? then Without(once, op.to) else once)
  }

  // ---------------------------------------------------------------------------
  // Coherence
  // ---------------------------------------------------------------------------

  /** Every entry outside the doubtful paths holds what the filesystem would answer. */
  ghost predicate Coherent(s: State, doubt: set<string>) {
    forall e | e in s.entries :: e.key.path in doubt || Answer(s.store, e.key) == Ok(e.data)
  }

  /**
    A write puts the cached paths of its file in doubt, under every spelling; success clears the
    spelling that was used.
  */
  ghost function Doubt(s: State, doubt: set<string>, op: WriterOp): set<string> {
    var paths := doubt + set e | e in s.entries && op.Touches(Name(e.key.path)) :: e.key.path;
    if op.Perform(s.store).result.Err? then paths else set p | p in paths && !op.Invalidates(p)
  }

  lemma PerformFrame(store: Store, op: WriterOp, name: string)
    requires !op.Touches(name)
    ensures var after := op.Perform(store).store;
      (name in after <==> name in store) && (name in store ==> after[name] == store[name])
  {
  }

  lemma WrittenEntries(s: State, op: WriterOp, e: Entry)
    ensures e in Written(s, op).entries
      <==> e in s.entries && (op.Perform(s.store).result.Ok? ==> !op.Invalidates(e.key.path))
  {
    WithoutMembers(s.entries, op.path);
    if op.Rename? {
      WithoutMembers(Without(s.entries, op.path), op.to);
    }
  }

  lemma WriteIsCoherent(s: State, doubt: set<string>, op: WriterOp)
    requires Coherent(s, doubt)
    ensures Coherent(Written(s, op), Doubt(s, doubt, op))
  {
    var after := Written(s, op);
    forall e | e in after.entries
      ensures e.key.path in Doubt(s, doubt, op) || Answer(after.store, e.key) == Ok(e.data)
    {
      WrittenEntries(s, op, e);
      if !op.Touches(Name(e.key.path)) {
        PerformFrame(s.store, op, Name(e.key.path));
      }
    }
  }

  /** A short delivery puts its path in doubt, for it is cached as if it were all. */
  ghost function ReadDoubt(s: State, doubt: set<string>, key: Key, d: Delivery): set<string> {
    if d.Short? && !Holds(s.entries, key) then doubt + {key.path} else doubt
  }

  lemma ReadIsCoherent(s: State, doubt: set<string>, key: Key, d: Delivery)
    requires Sound(s.entries) && Coherent(s, doubt)
    ensures var r := CachedRead(s, key, d);
      Sound(r.state.entries) && Coherent(r.state, ReadDoubt(s, doubt, key, d)) && r.state.store == s.store
    ensures key.path !in doubt ==>
      CachedRead(s, key, d).result in {Answer(s.store, key), Delivered(Answer(s.store, key), d)}
  {
    if Holds(s.entries, key) {
      TouchedIsSound(s.entries, key);
      assert s.entries[Position(s.entries, key)] in s.entries;
    } else if Delivered(Answer(s.store, key), d).Ok? {
      InsertedIsSound(s.entries, key, Delivered(Answer(s.store, key), d).value);
    }
  }

  lemma WrittenIsSound(s: State, op: WriterOp)
    requires Sound(s.entries)
    ensures Sound(Written(s, op).entries)
  {
    WithoutIsSound(s.entries, op.path);
    if op.Rename? {
      WithoutIsSound(Without(s.entries, op.path), op.to);
    }
  }

  /** Every successful change of the file, renames aside, leaves the cache coherent. */
  ghost predicate SafeSuccess(s: State, path: string) {
    forall op: WriterOp ::
      !op.Rename? && op.path == path && op.Perform(s.store).result.Ok? ==> Coherent(Written(s, op), {})
  }

  /** Every failed change of the file, renames aside, leaves the cache coherent. */
  ghost predicate SafeFailure(s: State, path: string) {
    forall op: WriterOp ::
      !op.Rename? && op.path == path && op.Perform(s.store).result.Err? ==> Coherent(Written(s, op), {})
  }

  /** The file is cached under the path `p`. */
  ghost predicate CachedAs(s: State, path: string, p: string) {
    Name(p) == Name(path) && exists e :: e in s.entries && e.key.path == p
  }

  lemma StaleEntry(s: State, op: WriterOp, e: Entry)
    requires Coherent(s, {}) && e in s.entries && e in Written(s, op).entries
    requires Name(e.key.path) !in op.Perform(s.store).store
    ensures !Coherent(Written(s, op), {})
  {
    assert Answer(op.Perform(s.store).store, e.key) == Err(NotFound);
  }

  /** Success is safe exactly when the file is cached under no other spelling. */
  lemma SuccessIsSafeIff(s: State, path: string)
    requires Coherent(s, {})
    ensures SafeSuccess(s, path) <==> forall p | CachedAs(s, path, p) :: p == path
  {
    if p :| CachedAs(s, path, p) && p != path {
      var e :| e in s.entries && e.key.path == p;
      var op := Delete(path, false);
      assert Answer(s.store, e.key) == Ok(e.data);
      WrittenEntries(s, op, e);
      StaleEntry(s, op, e);
      assert op.Perform(s.store).result.Ok?;
      assert !SafeSuccess(s, path);
    } else {
      forall op: WriterOp | !op.Rename? && op.path == path && op.Perform(s.store).result.Ok?
        ensures Coherent(Written(s, op), {})
      {
        WriteIsCoherent(s, {}, op);
        assert forall e | e in s.entries && op.Touches(Name(e.key.path)) :: CachedAs(s, path, e.key.path);
        assert Doubt(s, {}, op) == {};
      }
    }
  }

  /** Failure is safe exactly when the file is not cached at all: the invalidation is skipped. */
  lemma FailureIsSafeIff(s: State, path: string)
    requires Coherent(s, {})
    ensures SafeFailure(s, path) <==> forall p :: !CachedAs(s, path, p)
  {
    if p :| CachedAs(s, path, p) {
      var e :| e in s.entries && e.key.path == p;
      var op := Write(path, [], COMPLETES.(creates := false));
      assert Answer(s.store, e.key) == Ok(e.data);
      WrittenEntries(s, op, e);
      StaleEntry(s, op, e);
      assert op.Perform(s.store).result.Err?;
      assert !SafeFailure(s, path);
    } else {
      forall op: WriterOp | !op.Rename? && op.path == path && op.Perform(s.store).result.Err?
        ensures Coherent(Written(s, op), {})
      {
        WriteIsCoherent(s, {}, op);
        assert forall e | e in s.entries && op.Touches(Name(e.key.path)) :: CachedAs(s, path, e.key.path);
        assert Doubt(s, {}, op) == {};
      }
    }
  }

  /** Every failed rename leaves the cache coherent. */
  ghost predicate SafeRenameFailure(s: State, from: string, to: string) {
    forall op: WriterOp | op.Rename? && op.path == from && op.to == to && op.Perform(s.store).result.Err? ::
      Coherent(Written(s, op), {})
  }

  lemma FailedRenameFrame(store: Store, op: WriterOp, name: string)
    requires op.Rename? && op.Perform(store).result.Err? && name != Name(op.to)
    ensures var after := op.Perform(store).store;
      (name in after <==> name in store) && (name in store ==> after[name] == store[name])
  {
  }

  /**
    A failed rename has left the old file alone and, if it could read that, may have spoilt the new
    one, so it is safe exactly when that is not cached.
  */
  lemma RenameFailureIsSafeIff(s: State, from: string, to: string)
    requires Coherent(s, {})
    ensures SafeRenameFailure(s, from, to) <==> ReadFile(s.store, from).Err? || forall p :: !CachedAs(s, to, p)
  {
    if ReadFile(s.store, from).Err? {
      assert forall op: WriterOp | op.Rename? && op.path == from :: op.Perform(s.store).store == s.store;
    } else if p :| CachedAs(s, to, p) {
      var e :| e in s.entries && e.key.path == p;
      var op := Rename(from, to, Complete, COMPLETES.(creates := false), false);
      assert Answer(s.store, e.key) == Ok(e.data);
      WrittenEntries(s, op, e);
      StaleEntry(s, op, e);
      assert op.Perform(s.store).result.Err?;
      assert !SafeRenameFailure(s, from, to);
    } else {
      forall op: WriterOp | op.Rename? && op.path == from && op.to == to && op.Perform(s.store).result.Err?
        ensures Coherent(Written(s, op), {})
      {
        forall e | e in s.entries
          ensures Answer(op.Perform(s.store).store, e.key) == Ok(e.data)
        {
          assert Name(e.key.path) == Name(to) ==> CachedAs(s, to, e.key.path);
          FailedRenameFrame(s.store, op, Name(e.key.path));
        }
      }
    }
  }

  /** Every successful rename that reads so much of the old file leaves the cache coherent. */
  ghost predicate SafeRenameSuccess(s: State, from: string, to: string, d: Delivery) {
    forall op: WriterOp |
      op.Rename? && op.path == from && op.to == to && op.d == d && op.Perform(s.store).result.Ok? ::
      Coherent(Written(s, op), {})
  }

  /** A rename with this delivery can succeed. */
  predicate CanMove(store: Store, from: string, to: string, d: Delivery) {
    Delivered(ReadFile(store, from), d).Ok? && !IsDirectoryAt(store, Name(to))
  }

  /** The entry would still be right if its file held the moved content, over a kept tail or not. */
  predicate SurvivesMove(store: Store, from: string, to: string, d: Delivery, e: Entry)
    requires CanMove(store, from, to, d)
  {
    var content := Delivered(ReadFile(store, from), d).value;
    Cut(content, e.key) == Ok(e.data) && Cut(Overlay(ContentAt(store, Name(to)), content), e.key) == Ok(e.data)
  }

  /** Entries under other spellings: none of the old file, and of the new one only what survives. */
  ghost predicate OthersSurvive(s: State, from: string, to: string, d: Delivery)
    requires CanMove(s.store, from, to, d)
  {
    forall e | e in s.entries && e.key.path != from && e.key.path != to ::
      && Name(e.key.path) != Name(from)
      && (Name(e.key.path) == Name(to) ==> SurvivesMove(s.store, from, to, d, e))
  }

  lemma RenameIsSurvived(s: State, op: WriterOp)
    requires Coherent(s, {}) && op.Rename? && op.Perform(s.store).result.Ok?
    requires CanMove(s.store, op.path, op.to, op.d) && OthersSurvive(s, op.path, op.to, op.d)
    ensures Coherent(Written(s, op), {})
  {
    var after := Written(s, op);
    forall e | e in after.entries
      ensures Answer(after.store, e.key) == Ok(e.data)
    {
      WrittenEntries(s, op, e);
      if Name(e.key.path) != Name(op.to) {
        PerformFrame(s.store, op, Name(e.key.path));
      }
    }
  }

  lemma RenameIsNotSurvived(s: State, from: string, to: string, d: Delivery, e: Entry)
    requires Coherent(s, {}) && CanMove(s.store, from, to, d)
    requires e in s.entries && e.key.path != from && e.key.path != to
    requires Name(e.key.path) == Name(from) ||
      (Name(e.key.path) == Name(to) && !SurvivesMove(s.store, from, to, d, e))
    ensures !SafeRenameSuccess(s, from, to, d)
  {
    var content := Delivered(ReadFile(s.store, from), d).value;
    var lost := Name(e.key.path) == Name(from) || Cut(content, e.key) != Ok(e.data);
    var op := Rename(from, to, d, if lost then COMPLETES else KEEPS_TAIL, false);
    WrittenEntries(s, op, e);
    assert op.Perform(s.store).result.Ok?;
    assert Answer(op.Perform(s.store).store, e.key) != Ok(e.data);
    assert !Coherent(Written(s, op), {});
  }

  /** A rename that can succeed is safe when it does exactly when those entries survive. */
  lemma RenameSuccessIsSafeIff(s: State, from: string, to: string, d: Delivery)
    requires Coherent(s, {})
    ensures SafeRenameSuccess(s, from, to, d) <==> (CanMove(s.store, from, to, d) ==> OthersSurvive(s, from, to, d))
  {
    if !CanMove(s.store, from, to, d) {
      assert forall op: WriterOp | op.Rename? && op.path == from && op.to == to && op.d == d ::
        op.Perform(s.store).result.Err?;
    } else if OthersSurvive(s, from, to, d) {
      forall op: WriterOp |
        op.Rename? && op.path == from && op.to == to && op.d == d && op.Perform(s.store).result.Ok?
        ensures Coherent(Written(s, op), {})
      {
        RenameIsSurvived(s, op);
      }
    } else {
      var e :| e in s.entries && e.key.path != from && e.key.path != to &&
        !(Name(e.key.path) != Name(from) && (Name(e.key.path) == Name(to) ==> SurvivesMove(s.store, from, to, d, e)));
      RenameIsNotSurvived(s, from, to, d, e);
    }
  }

  // ---------------------------------------------------------------------------
  // Whole runs
  // ---------------------------------------------------------------------------

  datatype Step = Fetch(key: Key, delivery: Delivery) | Do(op: WriterOp)

  datatype Reply = Bytes(bytes: Result<seq<byte>>) | Done(done: Result<()>)

  function CachedReplies(s: State, steps: seq<Step>): seq<Reply>
    decreases |steps|
  {
    if |steps| == 0 then []
    else match steps[0]
      case Fetch(key, d) =>
        var r := CachedRead(s, key, d);
        [Bytes(r.result)] + CachedReplies(r.state, steps[1..])
      case Do(op) => [Done(op.Perform(s.store).result)] + CachedReplies(Written(s, op), steps[1..])
  }

  /** The same run on a volume without a cache, whose reads are complete. */
  function PlainReplies(store: Store, steps: seq<Step>): seq<Reply>
    decreases |steps|
  {
    if |steps| == 0 then []
    else match steps[0]
      case Fetch(key, _) => [Bytes(Answer(store, key))] + PlainReplies(store, steps[1..])
      case Do(op) => [Done(op.Perform(store).result)] + PlainReplies(op.Perform(store).store, steps[1..])
  }

  /** No step reads a path that is in doubt when it is read. */
  ghost predicate Trusted(s: State, doubt: set<string>, steps: seq<Step>)
    decreases |steps|
  {
    |steps| == 0 ||
    match steps[0]
    case Fetch(key, d) =>
      key.path !in doubt && Trusted(CachedRead(s, key, d).state, ReadDoubt(s, doubt, key, d), steps[1..])
    case Do(op) => Trusted(Written(s, op), Doubt(s, doubt, op), steps[1..])
  }

  /** A reply is right, or it is what the firmware made of the right one in that very step. */
  predicate Agrees(step: Step, reply: Reply, plain: Reply) {
    reply == plain || (step.Fetch? && plain.Bytes? && reply == Bytes(Delivered(plain.bytes, step.delivery)))
  }

  ghost predicate AllAgree(steps: seq<Step>, replies: seq<Reply>, plain: seq<Reply>) {
    |replies| == |plain| == |steps| && forall i | 0 <= i < |steps| :: Agrees(steps[i], replies[i], plain[i])
  }

  lemma AgreeCons(steps: seq<Step>, reply: Reply, replies: seq<Reply>, plainReply: Reply, plain: seq<Reply>)
    requires |steps| > 0 && Agrees(steps[0], reply, plainReply) && AllAgree(steps[1..], replies, plain)
    ensures AllAgree(steps, [reply] + replies, [plainReply] + plain)
  {
    forall i | 0 <= i < |steps|
      ensures Agrees(steps[i], ([reply] + replies)[i], ([plainReply] + plain)[i])
    {
      assert i > 0 ==> steps[i] == steps[1..][i - 1];
    }
  }

  lemma {:induction false} CacheIsTransparent(s: State, doubt: set<string>, steps: seq<Step>)
    requires Sound(s.entries) && Coherent(s, doubt) && Trusted(s, doubt, steps)
    ensures AllAgree(steps, CachedReplies(s, steps), PlainReplies(s.store, steps))
    decreases |steps|
  {
    if |steps| == 0 {
    } else {
      match steps[0]
      case Fetch(key, d) =>
        var r := CachedRead(s, key, d);
        ReadIsCoherent(s, doubt, key, d);
        CacheIsTransparent(r.state, ReadDoubt(s, doubt, key, d), steps[1..]);
        AgreeCons(steps, Bytes(r.result), CachedReplies(r.state, steps[1..]),
                  Bytes(Answer(s.store, key)), PlainReplies(s.store, steps[1..]));
      case Do(op) =>
        WriteIsCoherent(s, doubt, op);
        WrittenIsSound(s, op);
        CacheIsTransparent(Written(s, op), Doubt(s, doubt, op), steps[1..]);
        var done := Done(op.Perform(s.store).result);
        AgreeCons(steps, done, CachedReplies(Written(s, op), steps[1..]),
                  done, PlainReplies(op.Perform(s.store).store, steps[1..]));
    }
  }

  ghost predicate OneSpelling(paths: set<string>) {
    forall p, q | p in paths && q in paths && Name(p) == Name(q) :: p == q
  }

  predicate Mentions(step: Step, p: string) {
    match step
    case Fetch(key, _) => p == key.path
    case Do(op) => op.Invalidates(p)
  }

  ghost predicate StaysWithin(steps: seq<Step>, paths: set<string>) {
    forall i, p | 0 <= i < |steps| && Mentions(steps[i], p) :: p in paths
  }

  predicate AllSucceed(store: Store, steps: seq<Step>)
    decreases |steps|
  {
    |steps| == 0 ||
    match steps[0]
    case Fetch(_, d) => !d.Short? && AllSucceed(store, steps[1..])
    case Do(op) => op.Perform(store).result.Ok? && AllSucceed(op.Perform(store).store, steps[1..])
  }

  ghost predicate CachesWithin(s: State, paths: set<string>) {
    forall e | e in s.entries :: e.key.path in paths
  }

  lemma NoDoubt(s: State, op: WriterOp, paths: set<string>)
    requires OneSpelling(paths) && CachesWithin(s, paths) && (forall p | op.Invalidates(p) :: p in paths)
    requires op.Perform(s.store).result.Ok?
    ensures Doubt(s, {}, op) == {} && CachesWithin(Written(s, op), paths)
  {
    assert op.Invalidates(op.path) && (op.Rename? ==> op.Invalidates(op.to));
    forall e | e in Written(s, op).entries
      ensures e.key.path in paths
    {
      WrittenEntries(s, op, e);
    }
  }

  lemma CachedReadWithin(s: State, key: Key, d: Delivery, paths: set<string>)
    requires Sound(s.entries) && CachesWithin(s, paths) && key.path in paths
    ensures CachesWithin(CachedRead(s, key, d).state, paths)
  {
    if Holds(s.entries, key) {
      TouchedIsSound(s.entries, key);
    } else if Delivered(Answer(s.store, key), d).Ok? {
      InsertedIsSound(s.entries, key, Delivered(Answer(s.store, key), d).value);
    }
  }

  lemma {:induction false} SpelledRunIsTrusted(s: State, steps: seq<Step>, paths: set<string>)
    requires Sound(s.entries) && CachesWithin(s, paths)
    requires OneSpelling(paths) && StaysWithin(steps, paths) && AllSucceed(s.store, steps)
    ensures Trusted(s, {}, steps)
    decreases |steps|
  {
    if |steps| == 0 {
    } else {
      assert StaysWithin(steps[1..], paths) by {
        assert forall i | 0 <= i < |steps| - 1 :: steps[1..][i] == steps[i + 1];
      }
      match steps[0]
      case Fetch(key, d) =>
        assert Mentions(steps[0], key.path);
        ReadIsCoherent(s, paths, key, d);
        CachedReadWithin(s, key, d, paths);
        SpelledRunIsTrusted(CachedRead(s, key, d).state, steps[1..], paths);
      case Do(op) =>
        assert forall p | op.Invalidates(p) :: Mentions(steps[0], p);
        NoDoubt(s, op, paths);
        WrittenIsSound(s, op);
        SpelledRunIsTrusted(Written(s, op), steps[1..], paths);
    }
  }

  /**
    From an empty cache, runs of complete or failed reads and successful changes that spell each file
    one way see no cache.
  */
  lemma SpelledRunIsTransparent(store: Store, steps: seq<Step>, paths: set<string>)
    requires OneSpelling(paths) && StaysWithin(steps, paths) && AllSucceed(store, steps)
    ensures AllAgree(steps, CachedReplies(State(store, []), steps), PlainReplies(store, steps))
  {
    SpelledRunIsTrusted(State(store, []), steps, paths);
    CacheIsTransparent(State(store, []), {}, steps);
  }

  // ---------------------------------------------------------------------------
  // What the primitives promise
  // ---------------------------------------------------------------------------

  /** A successful write is read back, unless a refused delete left the tail of a longer file. */
  lemma WriteThenRead(store: Store, path: string, data: seq<byte>, fate: Fate)
    requires FatWrite(store, path, data, fate).result.Ok? && |data| <= MAX_BOOT_FILE
    ensures ReadFile(FatWrite(store, path, data, fate).store, path) == Ok(data)
      <==> fate.deletes || |ContentAt(store, Name(path))| <= |data|
  {
    if !fate.deletes {
      assert |Overlay(ContentAt(store, Name(path)), data)| > |data| <==> |ContentAt(store, Name(path))| > |data|;
    }
  }

  /** A completed append adds the new bytes at the end, or makes a file of them. */
  lemma AppendThenRead(store: Store, path: string, data: seq<byte>)
    requires !IsDirectoryAt(store, Name(path)) && |ContentAt(store, Name(path)) + data| <= MAX_BOOT_FILE
    ensures var content, change := ContentAt(store, Name(path)), FatAppend(store, path, data, Complete, COMPLETES);
      change.result.Ok? && ReadFile(change.store, path) == Ok(content + data)
  {
    assert [] + data == data;
  }

  /** The two ways to append leave the same file, up to the size the rewriting one can read. */
  lemma AppendsAgree(store: Store, path: string, data: seq<byte>)
    requires Name(path) in store && store[Name(path)].File? ==> |store[Name(path)].data| <= MAX_BOOT_FILE
    ensures FatAppend(store, path, data, Complete, COMPLETES) == FatTrueAppend(store, path, data, COMPLETES)
  {
    assert [] + data == data;
  }

  /** The part of `content` that a short delivery leaves out. */
  function Missing(content: seq<byte>, d: Delivery): seq<byte> {
    if d.Short? then content[Min(d.n, |content|)..] else []
  }

  lemma WholeIff(content: seq<byte>, d: Delivery)
    requires !d.Failed?
    ensures Delivered(Ok(content), d).Ok?
    ensures Delivered(Ok(content), d) == Ok(content) <==> Missing(content, d) == []
    ensures |Delivered(Ok(content), d).value| + |Missing(content, d)| == |content|
  {
    assert content[..|content|] == content;
  }

  lemma PrefixCancels(a: seq<byte>, b: seq<byte>, c: seq<byte>)
    ensures a + b <= a + c <==> b <= c
  {
    assert (a + c)[|a|..] == c && (a + b)[|a|..] == b;
    if a + b <= a + c {
      assert forall i | 0 <= i < |b| :: b[i] == (a + b)[|a| + i] == (a + c)[|a| + i] == c[i];
    }
  }

  /**
    The rewriting append keeps what was there exactly when its own read fails, brings everything, or
    leaves out what the new bytes happen to begin with.
  */
  lemma AppendKeepsIff(store: Store, path: string, data: seq<byte>, d: Delivery)
    requires ReadFile(store, path).Ok? && |ReadFile(store, path).value + data| <= MAX_BOOT_FILE
    ensures var content, after := ReadFile(store, path).value, FatAppend(store, path, data, d, COMPLETES).store;
      ReadFile(after, path).Ok? && (content <= ReadFile(after, path).value <==> Missing(content, d) <= data)
  {
    var content := ReadFile(store, path).value;
    if d.Short? {
      var read := content[..Min(d.n, |content|)];
      assert content == read + Missing(content, d);
      PrefixCancels(read, Missing(content, d), data);
    } else {
      assert content <= content + data;
    }
  }

  ghost predicate KeepsContent(store: Store, from: string, to: string, d: Delivery, fate: Fate, refused: bool) {
    var after := FatRename(store, from, to, d, fate, refused).store;
    ReadFile(after, from) == ReadFile(store, from) || ReadFile(after, to) == ReadFile(store, from)
  }

  /** The content is readable under one of the two paths, whatever the firmware does after the read. */
  ghost predicate NeverLosesContent(store: Store, from: string, to: string, d: Delivery) {
    forall fate, refused :: KeepsContent(store, from, to, d, fate, refused)
  }

  /** The rename cannot start, or it brings all of the old file to a name with nothing longer. */
  predicate SafeMove(store: Store, from: string, to: string, d: Delivery)
    requires ReadFile(store, from).Ok?
  {
    var content := ReadFile(store, from).value;
    || d.Failed?
    || IsDirectoryAt(store, Name(to))
    || (Name(from) != Name(to) && Missing(content, d) == [] && |ContentAt(store, Name(to))| <= |content|)
  }

  lemma SafeMoveKeeps(store: Store, from: string, to: string, d: Delivery, fate: Fate, refused: bool)
    requires ReadFile(store, from).Ok? && SafeMove(store, from, to, d)
    ensures KeepsContent(store, from, to, d, fate, refused)
  {
    var content := ReadFile(store, from).value;
    if !d.Failed? && !IsDirectoryAt(store, Name(to)) {
      WholeIff(content, d);
      assert Overlay(ContentAt(store, Name(to)), content) == content;
    }
  }

  lemma UnsafeMoveLoses(store: Store, from: string, to: string, d: Delivery, fate: Fate)
    requires ReadFile(store, from).Ok? && !SafeMove(store, from, to, d)
    requires var content := ReadFile(store, from).value;
      fate == if Name(from) != Name(to) && Missing(content, d) == [] then KEEPS_TAIL else COMPLETES
    ensures !KeepsContent(store, from, to, d, fate, false)
  {
    var content := ReadFile(store, from).value;
    WholeIff(content, d);
    if fate == KEEPS_TAIL {
      assert |Overlay(ContentAt(store, Name(to)), content)| > |content|;
    }
  }

  /**
    A rename is safe exactly when its read fails, the new path is a directory, or the two paths name
    different files, the read brings everything and the new path does not name a longer file, whose
    tail a refused delete would leave.
  */
  lemma RenameIsSafeIff(store: Store, from: string, to: string, d: Delivery)
    requires ReadFile(store, from).Ok?
    ensures NeverLosesContent(store, from, to, d) <==> SafeMove(store, from, to, d)
  {
    if SafeMove(store, from, to, d) {
      forall fate, refused
        ensures KeepsContent(store, from, to, d, fate, refused)
      {
        SafeMoveKeeps(store, from, to, d, fate, refused);
      }
    } else {
      var content := ReadFile(store, from).value;
      var whole := Name(from) != Name(to) && Missing(content, d) == [];
      UnsafeMoveLoses(store, from, to, d, if whole then KEEPS_TAIL else COMPLETES);
    }
  }

  /** A rename that reads `n` bytes and otherwise completes keeps the content exactly when that is all. */
  lemma ShortRenameKeepsIff(store: Store, from: string, to: string, n: nat)
    requires ReadFile(store, from).Ok? && Name(from) != Name(to) && !IsDirectoryAt(store, Name(to))
    ensures KeepsContent(store, from, to, Short(n), COMPLETES, false) <==> n >= |ReadFile(store, from).value|
  {
    WholeIff(ReadFile(store, from).value, Short(n));
  }

  // ---------------------------------------------------------------------------
  // The volume in place
  // ---------------------------------------------------------------------------

  /** The files, as the firmware keeps them; the `fat_*` functions change them step by step. */
  class SimpleFileSystem {
    var store: Store

    constructor (store: Store)
      ensures this.store == store
    {
      this.store := store;
    }

    method Write(path: string, data: seq<byte>, fate: Fate) returns (r: Result<()>)
      modifies this
      ensures Change(store, r) == FatWrite(old(store), path, data, fate)
      ensures store - {Name(path)} == old(store) - {Name(path)}
      ensures r.Ok? ==> store[Name(path)].File? && data <= store[Name(path)].data
      ensures r.Ok? && fate.deletes ==> store == old(store)[Name(path) := File(data)]
    {
      var name := Name(path);
      if !fate.opens {
        return Err(Io);
      }
      if name in store && store[name].File? && fate.deletes {
        store := store - {name};
      }
      if !fate.creates {
        assert old(name !in store) ==> store - {name} == store;
        return Err(Io);
      }
      if name in store && store[name].Directory? {
        return Err(IsDirectory);
      }
      assert old(name !in store) ==> store - {name} == store;
      store := store[name := File(Overlay(ContentAt(store, name), Arrived(data, fate)))];
      r := Status(fate);
    }

    method Append(path: string, data: seq<byte>, d: Delivery, fate: Fate) returns (r: Result<()>)
      modifies this
      ensures Change(store, r) == FatAppend(old(store), path, data, d, fate)
      ensures store - {Name(path)} == old(store) - {Name(path)}
    {
      var existing := Delivered(ReadFile(store, path), d);
      if existing.Err? && existing.error != NotFound {
        return Err(existing.error);
      }
      r := Write(path, if existing.Ok? then existing.value + data else data, fate);
    }

    method TrueAppend(path: string, data: seq<byte>, fate: Fate) returns (r: Result<()>)
      modifies this
      ensures Change(store, r) == FatTrueAppend(old(store), path, data, fate)
      ensures store - {Name(path)} == old(store) - {Name(path)}
      ensures old(Name(path) in store && store[Name(path)].File?) ==>
        store[Name(path)].File? && old(store)[Name(path)].data <= store[Name(path)].data
    {
      var name := Name(path);
      if !fate.opens || !fate.creates {
        return Err(Io);
      }
      if name in store && store[name].Directory? {
        return Err(IsDirectory);
      }
      store := store[name := File(ContentAt(store, name))];
      if !fate.seeks {
        return Err(Io);
      }
      store := store[name := File(store[name].data + Arrived(data, fate))];
      r := Status(fate);
    }

    method Rename(from: string, to: string, d: Delivery, fate: Fate, refused: bool) returns (r: Result<()>)
      modifies this
      ensures Change(store, r) == FatRename(old(store), from, to, d, fate, refused)
      ensures r.Ok? ==> Name(from) !in store
      ensures r.Err? && Name(from) != Name(to) ==> store - {Name(to)} == old(store) - {Name(to)}
    {
      var content := Delivered(ReadFile(store, from), d);
      if content.Err? {
        return Err(content.error);
      }
      r := Write(to, content.value, fate);
      if r.Err? {
        return;
      }
      if refused {
        return Err(Io);
      }
      store := store - {Name(from)};
    }

    method Delete(path: string, refused: bool) returns (r: Result<()>)
      modifies this
      ensures Change(store, r) == FatDelete(old(store), path, refused)
      ensures if r.Ok? then store == old(store) - {Name(path)} else store == old(store)
      ensures r.Ok? ==> old(Name(path) in store && store[Name(path)].File?)
    {
      if Name(path) !in store {
        return Err(NotFound);
      }
      if store[Name(path)].Directory? {
        return Err(IsDirectory);
      }
      if refused {
        return Err(Io);
      }
      store := store - {Name(path)};
      r := Ok(());
    }

    method EnsureDir(path: string, refused: bool) returns (r: Result<()>)
      modifies this
      ensures Change(store, r) == FatEnsureDir(old(store), path, refused)
      ensures r.Ok? ==> Name(path) in store
      ensures store - {Name(path)} == old(store) - {Name(path)}
    {
      if refused {
        return Err(Io);
      }
      if Name(path) !in store {
        store := store[Name(path) := Directory];
      }
      r := Ok(());
    }
  }

  class Volume {
    const files: SimpleFileSystem
    const cache: VolumeCache
    /** Paths whose cached reads may be out of date. */
    ghost var doubt: set<string>

    ghost function Contents(): State
      reads files, cache
    {
      State(files.store, cache.entries)
    }

    ghost predicate Valid()
      reads this, files, cache
    {
      cache.Valid() && Coherent(Contents(), doubt)
    }

    constructor (store: Store)
      ensures Valid() && fresh(files) && fresh(cache) && Contents() == State(store, []) && doubt == {}
    {
      files := new SimpleFileSystem(store);
      cache := new VolumeCache();
      doubt := {};
    }

    method ReadKey(key: Key, d: Delivery) returns (r: Result<seq<byte>>)
      requires Valid()
      modifies `doubt, cache
      ensures Valid() && r == CachedRead(old(Contents()), key, d).result
      ensures Contents() == CachedRead(old(Contents()), key, d).state
      ensures old(key.path !in doubt) ==> r in {Answer(files.store, key), Delivered(Answer(files.store, key), d)}
      ensures doubt == ReadDoubt(old(Contents()), old(doubt), key, d)
    {
      ReadIsCoherent(Contents(), doubt, key, d);
      doubt := ReadDoubt(Contents(), doubt, key, d);
      var cached := cache.Get(key);
      if cached.Some? {
        return Ok(cached.value);
      }
      r := Delivered(Answer(files.store, key), d);
      if r.Ok? {
        cache.Insert(key, r.value);
      }
    }

    method Read(path: string, d: Delivery) returns (r: Result<seq<byte>>)
      requires Valid()
      modifies `doubt, cache
      ensures Valid() && r == CachedRead(old(Contents()), FullRead(path), d).result
      ensures Contents() == CachedRead(old(Contents()), FullRead(path), d).state
      ensures old(path !in doubt) ==> r in {ReadFile(files.store, path), Delivered(ReadFile(files.store, path), d)}
      ensures doubt == ReadDoubt(old(Contents()), old(doubt), FullRead(path), d)
    {
      r := ReadKey(FullRead(path), d);
    }

    method ReadAt(path: string, offset: nat, len: Length, d: Delivery) returns (r: Result<seq<byte>>)
      requires Valid()
      modifies `doubt, cache
      ensures Valid() && r == CachedRead(old(Contents()), Key(path, offset, len), d).result
      ensures Contents() == CachedRead(old(Contents()), Key(path, offset, len), d).state
      ensures old(path !in doubt) ==>
        var answer := Answer(files.store, Key(path, offset, len)); r in {answer, Delivered(answer, d)}
      ensures forall data | old(path !in doubt) && d.Complete? && IsFile(files.store, path, data) ::
        offset + len <= |data| && offset < USIZE_MAX ==>
          r.Ok? && |r.value| == len && forall i | 0 <= i < len :: r.value[i] == data[offset + i]
      ensures doubt == ReadDoubt(old(Contents()), old(doubt), Key(path, offset, len), d)
    {
      r := ReadKey(Key(path, offset, len), d);
    }
  }

  /** The only writer: every operation changes the files first and invalidates after. */
  class EspWriter {
    const volume: Volume

    constructor (volume: Volume)
      ensures this.volume == volume
    {
      this.volume := volume;
    }

    method Perform(op: WriterOp) returns (r: Result<()>)
      modifies volume.files
      ensures Change(volume.files.store, r) == op.Perform(old(volume.files.store))
    {
      match op
      case Write(path, data, fate) => r := volume.files.Write(path, data, fate);
      case Append(path, data, d, fate) => r := volume.files.Append(path, data, d, fate);
      case TrueAppend(path, data, fate) => r := volume.files.TrueAppend(path, data, fate);
      case Rename(path, to, d, fate, refused) => r := volume.files.Rename(path, to, d, fate, refused);
      case EnsureDir(path, refused) => r := volume.files.EnsureDir(path, refused);
      case Delete(path, refused) => r := volume.files.Delete(path, refused);
    }

    method Apply(op: WriterOp) returns (r: Result<()>)
      requires volume.Valid()
      modifies volume, volume.files, volume.cache
      ensures volume.Valid() && r == op.Perform(old(volume.files.store)).result
      ensures volume.Contents() == Written(old(volume.Contents()), op)
      ensures volume.doubt == Doubt(old(volume.Contents()), old(volume.doubt), op)
    {
      WriteIsCoherent(volume.Contents(), volume.doubt, op);
      volume.doubt := Doubt(volume.Contents(), volume.doubt, op);
      r := Perform(op);
      if r.Err? {
        return;
      }
      volume.cache.InvalidatePath(op.path);
      if op.Rename? {
        volume.cache.InvalidatePath(op.to);
      }
    }

    /** Both names are joined to the directory first; a bad name changes nothing. */
    method RenameIn(dir: string, oldName: string, newName: string, d: Delivery, fate: Fate, refused: bool)
      returns (r: Result<()>)
      requires volume.Valid()
      modifies volume, volume.files, volume.cache
      ensures volume.Valid()
      ensures var from, to := Paths.Join(dir, oldName), Paths.Join(dir, newName);
        if from.Ok? && to.Ok? then
          var op := Rename(from.value, to.value, d, fate, refused);
          && r == op.Perform(old(volume.files.store)).result
          && volume.Contents() == Written(old(volume.Contents()), op)
          && volume.doubt == Doubt(old(volume.Contents()), old(volume.doubt), op)
        else
          && r == Err(InvalidPath(if from.Err? then from.error else to.error))
          && volume.Contents() == old(volume.Contents()) && volume.doubt == old(volume.doubt)
    {
      var from := Paths.Join(dir, oldName);
      if from.Err? {
        return Err(InvalidPath(from.error));
      }
      var to := Paths.Join(dir, newName);
      if to.Err? {
        return Err(InvalidPath(to.error));
      }
      r := Apply(Rename(from.value, to.value, d, fate, refused));
    }
  }
}
