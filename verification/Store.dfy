/**
 * The encrypted license store (include/keylight/store.hpp:237-348) over a disk that is a map
 * from paths to contents, and a process that may die between any two disk operations.
 */
module Store {
  import opened Limbs
  import Aead

  type Files = map<string, seq<byte>>

  /** What the environment makes fail during one call. */
  datatype Faults = Faults(
    probeThrows: bool,  // `fs::exists` throws
    legacyRead: nat,    // bytes of the legacy file that can be read, none if it cannot be opened
    storeRead: nat,     // the same of the store file
    openFails: bool,    // directories or the temporary file cannot be created
    room: nat,          // bytes the stream takes before it reports an error
    kept: nat,          // bytes of those that survive the close, whose errors nobody sees
    renameFails: bool,
    removeFails: bool)

  datatype SaveResult = Saved | IoError

  function Minus(a: nat, b: nat): (c: nat) {
    if a > b then a - b else 0
  }

  function Least(a: nat, b: nat): (c: nat) {
    if a < b then a else b
  }

  // ---------------------------------------------------------------- the disk

  /** Each operation takes one unit of the process's life; a dead process changes nothing. */
  class Disk {
    var files: Files
    var life: nat

    constructor (f: Files, n: nat)
      ensures files == f && life == n
    {
      files, life := f, n;
    }

    method Truncate(p: string)
      modifies this
      ensures files == if old(life) == 0 then old(files) else old(files)[p := []]
      ensures life == Minus(old(life), 1)
    {
      if life > 0 {
        files, life := files[p := []], life - 1;
      }
    }

    method AppendByte(p: string, b: byte)
      requires life > 0 ==> p in files
      modifies this
      ensures files == if old(life) == 0 then old(files) else old(files)[p := old(files)[p] + [b]]
      ensures life == Minus(old(life), 1)
    {
      if life > 0 {
        files, life := files[p := files[p] + [b]], life - 1;
      }
    }

    method Rename(p: string, q: string)
      requires life > 0 ==> p in files
      modifies this
      ensures files == if old(life) == 0 then old(files) else (old(files) - {p})[q := old(files)[p]]
      ensures life == Minus(old(life), 1)
    {
      if life > 0 {
        files, life := (files - {p})[q := files[p]], life - 1;
      }
    }

    method Remove(p: string)
      modifies this
      ensures files == if old(life) == 0 then old(files) else old(files) - {p}
      ensures life == Minus(old(life), 1)
    {
      if life > 0 {
        files, life := files - {p}, life - 1;
      }
    }
  }

  // ---------------------------------------------------------------- specification

  function Temp(path: string): (t: string)
    ensures t != path
  {
    path + ".tmp"
  }

  /** The file written for `data`: nonce, ciphertext, tag. */
  ghost function Blob(key: seq<byte>, nonce: seq<byte>, data: seq<byte>): (b: seq<byte>)
    requires |key| == 32 && |nonce| == 12
    ensures |b| == |data| + 28
  {
    var (ct, tag) := Aead.Sealed(key, nonce, data);
    nonce + ct + tag
  }

  ghost function Decrypted(key: seq<byte>, blob: seq<byte>): (d: seq<byte>)
    requires |key| == 32
  {
    if |blob| < 28 then []
    else
      var n := |blob| - 16;
      match Aead.Open(key, blob[..12], blob[12..n], blob[n..])
      case Plain(text) => text
      case Rejected => []
  }

  lemma BlobDecrypts(key: seq<byte>, nonce: seq<byte>, data: seq<byte>)
    requires |key| == 32 && |nonce| == 12
    ensures Decrypted(key, Blob(key, nonce, data)) == data
  {
    hide Aead.Open, Aead.Sealed;
    var (ct, tag) := Aead.Sealed(key, nonce, data);
    Aead.OpenIffSealed(key, nonce, ct, tag, data);
    var b := Blob(key, nonce, data);
    assert b[..12] == nonce && b[12..|b| - 16] == ct && b[|b| - 16..] == tag;
  }

  /** The files after a save cut short by the faults or by the end of the process's life. */
  ghost function SaveFiles(files: Files, path: string, blob: seq<byte>, faults: Faults, life: nat): (f: Files) {
    var tmp := Temp(path);
    if faults.openFails || life == 0 then files
    else
      var whole := Least(faults.kept, |blob|);
      if faults.room < |blob| || faults.renameFails || life <= whole + 1
      then files[tmp := blob[..Least(Least(life - 1, faults.room), whole)]]
      else (files - {tmp})[path := blob[..whole]]
  }

  ghost function SaveLife(blob: seq<byte>, faults: Faults, life: nat): (n: nat) {
    if faults.openFails then life
    else if faults.room < |blob| then Minus(life, 1 + Least(faults.room, faults.kept))
    else Minus(life, 1 + Least(faults.kept, |blob|) + if faults.renameFails then 0 else 1)
  }

  /** What `save` reports, lost bytes or not. */
  ghost predicate SaveSucceeds(blob: seq<byte>, faults: Faults) {
    !faults.openFails && |blob| <= faults.room && !faults.renameFails
  }

  datatype Places = Places(path: string, legacy: string)

  /** `load` imports: there is no store file yet and a plaintext one has something in it. */
  ghost predicate Imports(files: Files, at: Places) {
    at.legacy != "" && at.path !in files && at.legacy in files && files[at.legacy] != []
  }

  function Prefix(s: seq<byte>, n: nat): (r: seq<byte>)
    ensures |s| <= n ==> r == s
  {
    s[..Least(n, |s|)]
  }

  ghost predicate ImportsNow(files: Files, at: Places, faults: Faults) {
    Imports(files, at) && !faults.probeThrows && faults.legacyRead > 0
  }

  /** What a load that meets no fault returns. */
  ghost function Contents(key: seq<byte>, files: Files, at: Places): (d: seq<byte>)
    requires |key| == 32
  {
    if Imports(files, at) then files[at.legacy]
    else if at.path in files then Decrypted(key, files[at.path]) else []
  }

  ghost function LoadFiles(key: seq<byte>, files: Files, at: Places, nonce: seq<byte>, faults: Faults, life: nat): (f: Files)
    requires |key| == 32 && |nonce| == 12
  {
    if ImportsNow(files, at, faults) then
      var blob := Blob(key, nonce, Prefix(files[at.legacy], faults.legacyRead));
      var saved := SaveFiles(files, at.path, blob, faults, life);
      if SaveSucceeds(blob, faults) && SaveLife(blob, faults, life) > 0 && !faults.removeFails
      then saved - {at.legacy} else saved
    else files
  }

  ghost predicate ReadsAll(files: Files, p: string, n: nat) {
    p in files ==> |files[p]| <= n
  }

  // ---------------------------------------------------------------- the store

  class EncryptedFileStore {
    const path: string
    const legacyPath: string
    const key: seq<byte>

    constructor (p: string, l: string, k: seq<byte>)
      ensures path == p && legacyPath == l && key == k
    {
      path, legacyPath, key := p, l, k;
    }

    method Encrypt(nonce: seq<byte>, data: seq<byte>) returns (blob: seq<byte>)
      requires |key| == 32 && |nonce| == 12 && |data| < 0x1_0000_0000_0000_0000
      ensures blob == Blob(key, nonce, data)
    {
      hide Aead.Sealed;
      var pt := new byte[|data|](i requires 0 <= i < |data| => data[i]);
      var ct := new byte[|data|](_ => 0);
      assert pt[..|data|] == data;
      var tag := Aead.Seal(key, nonce, pt, |data|, ct);
      blob := nonce + ct[..|data|] + tag;
    }

    method Decrypt(blob: seq<byte>) returns (data: seq<byte>)
      requires |key| == 32 && |blob| < 0x1_0000_0000_0000_0000
      ensures data == Decrypted(key, blob)
    {
      hide Aead.Open;
      if |blob| < 12 + 16 {
        return [];
      }
      var len := |blob| - 12 - 16;
      var ct := new byte[len](i requires 0 <= i < len => blob[12 + i]);
      assert ct[..len] == blob[12..|blob| - 16];
      var out := new byte[len](_ => 0);
      var ok := Aead.OpenInto(key, blob[..12], ct, len, blob[12 + len..], out);
      data := if ok then out[..len] else [];
    }

    /** `save`: temporary file, then rename. */
    method Save(disk: Disk, data: seq<byte>, nonce: seq<byte>, faults: Faults) returns (r: SaveResult)
      requires |key| == 32 && |nonce| == 12 && |data| < 0x1_0000_0000_0000_0000
      modifies disk
      ensures disk.files == SaveFiles(old(disk.files), path, Blob(key, nonce, data), faults, old(disk.life))
      ensures disk.life == SaveLife(Blob(key, nonce, data), faults, old(disk.life))
      ensures r == if SaveSucceeds(Blob(key, nonce, data), faults) then Saved else IoError
    {
      var blob := Encrypt(nonce, data);
      r := WriteAndRename(disk, blob, faults);
    }

    method WriteAndRename(disk: Disk, blob: seq<byte>, faults: Faults) returns (r: SaveResult)
      modifies disk
      ensures disk.files == SaveFiles(old(disk.files), path, blob, faults, old(disk.life))
      ensures disk.life == SaveLife(blob, faults, old(disk.life))
      ensures r == if SaveSucceeds(blob, faults) then Saved else IoError
    {
      ghost var files, life := disk.files, disk.life;
      var tmp := Temp(path);
      if faults.openFails {
        return IoError;
      }
      disk.Truncate(tmp);
      var i := 0;
      while i < |blob|
        invariant 0 <= i <= |blob| && i <= faults.room
        invariant disk.life == Minus(life, 1 + Least(i, faults.kept))
        invariant disk.files == if life == 0 then files else files[tmp := blob[..Least(life - 1, Least(i, faults.kept))]]
      {
        if i == faults.room {
          return IoError;
        }
        assert life > 1 + i ==> blob[..i] + [blob[i]] == blob[..i + 1];
        if i < faults.kept {
          disk.AppendByte(tmp, blob[i]);
        }
        i := i + 1;
      }
      if faults.renameFails {
        return IoError;
      }
      disk.Rename(tmp, path);
      ghost var whole := blob[..Least(faults.kept, |blob|)];
      assert files[tmp := whole] - {tmp} == files - {tmp};
      return Saved;
    }

    /** `load`, with the one-time import of a plaintext store. */
    method Load(disk: Disk, nonce: seq<byte>, faults: Faults) returns (data: seq<byte>)
      requires |key| == 32 && |nonce| == 12
      requires forall p :: p in disk.files ==> |disk.files[p]| < 0x1_0000_0000_0000_0000
      modifies disk
      ensures disk.files == LoadFiles(key, old(disk.files), Places(path, legacyPath), nonce, faults, old(disk.life))
      ensures !faults.probeThrows && ReadsAll(old(disk.files), legacyPath, faults.legacyRead)
              && ReadsAll(old(disk.files), path, faults.storeRead)
        ==> data == Contents(key, old(disk.files), Places(path, legacyPath))
    {
      hide Decrypted, Blob, SaveFiles, SaveLife;
      if faults.probeThrows {
        return [];
      }
      if legacyPath != "" && path !in disk.files && legacyPath in disk.files {
        var legacy := Prefix(disk.files[legacyPath], faults.legacyRead);
        if legacy != [] {
          var r := Save(disk, legacy, nonce, faults);
          if r.Saved? && !faults.removeFails {
            disk.Remove(legacyPath);
          }
          return legacy;
        }
      }
      if path !in disk.files {
        return [];
      }
      data := Decrypt(Prefix(disk.files[path], faults.storeRead));
    }
  }

  // ---------------------------------------------------------------- theorems

  lemma DecryptedLength(key: seq<byte>, blob: seq<byte>)
    requires |key| == 32
    ensures |Decrypted(key, blob)| <= Minus(|blob|, 28)
  {
  }

  /** A blob cut short, whatever it decrypts to, does not give its contents back. */
  lemma CutBlob(key: seq<byte>, nonce: seq<byte>, data: seq<byte>, n: nat)
    requires |key| == 32 && |nonce| == 12
    ensures Decrypted(key, Prefix(Blob(key, nonce, data), n)) == data <==> n >= |data| + 28 || data == []
  {
    hide Decrypted, Blob;
    var blob := Blob(key, nonce, data);
    if n >= |data| + 28 {
      BlobDecrypts(key, nonce, data);
      assert Prefix(blob, n) == blob;
    } else {
      DecryptedLength(key, Prefix(blob, n));
    }
  }

  /** Loading after a save that reported success gives the data back exactly if the close lost nothing of it. */
  lemma LoadAfterSave(key: seq<byte>, files: Files, at: Places, nonce: seq<byte>, data: seq<byte>, faults: Faults, life: nat)
    requires |key| == 32 && |nonce| == 12
    requires SaveSucceeds(Blob(key, nonce, data), faults) && life > |data| + 29
    ensures Contents(key, SaveFiles(files, at.path, Blob(key, nonce, data), faults, life), at) == data
      <==> faults.kept >= |data| + 28 || data == []
  {
    hide Decrypted, Blob;
    CutBlob(key, nonce, data, faults.kept);
  }

  // ---------------------------------------------------------------- a save is atomic

  /** What a load finds after the save, however that ended, is neither the old contents nor the new ones. */
  ghost predicate Torn(key: seq<byte>, files: Files, at: Places, nonce: seq<byte>, data: seq<byte>, faults: Faults, life: nat)
    requires |key| == 32 && |nonce| == 12
  {
    var found := Contents(key, SaveFiles(files, at.path, Blob(key, nonce, data), faults, life), at);
    found != Contents(key, files, at) && found != data
  }

  /** No fault or crash tears the save; `flushed` leaves out faults that lose bytes at the close. */
  ghost predicate Atomic(key: seq<byte>, files: Files, at: Places, data: seq<byte>, flushed: bool)
    requires |key| == 32
  {
    forall nonce: seq<byte>, faults: Faults, life: nat ::
      |nonce| == 12 && (flushed ==> faults.kept >= |data| + 28) ==> !Torn(key, files, at, nonce, data, faults, life)
  }

  lemma NeverTorn(key: seq<byte>, files: Files, at: Places, nonce: seq<byte>, data: seq<byte>, faults: Faults, life: nat)
    requires |key| == 32 && |nonce| == 12 && faults.kept >= |data| + 28
    requires at.legacy != Temp(at.path) || at.path in files
    ensures !Torn(key, files, at, nonce, data, faults, life)
  {
    hide Decrypted, Blob;
    CutBlob(key, nonce, data, faults.kept);
    var blob := Blob(key, nonce, data);
    assert Prefix(blob, faults.kept) == blob[..Least(faults.kept, |blob|)];
  }

  /** A byte that neither of two sequences starts with. */
  function OtherByte(a: seq<byte>, b: seq<byte>): (x: byte)
    ensures [x] != a && [x] != b
  {
    if [0] != a && [0] != b then 0 else if [1] != a && [1] != b then 1 else 2
  }

  lemma BlobStart(key: seq<byte>, nonce: seq<byte>, data: seq<byte>)
    requires |key| == 32 && |nonce| == 12
    ensures Blob(key, nonce, data)[..1] == [nonce[0]]
  {
    hide Aead.Sealed;
  }

  /** A crash after one byte leaves that byte where the plaintext store is looked for. */
  lemma TornAtTemp(key: seq<byte>, files: Files, at: Places, data: seq<byte>)
    requires |key| == 32 && at.legacy == Temp(at.path) && at.path !in files
    ensures !Atomic(key, files, at, data, true)
  {
    hide Decrypted, Blob;
    var nonce := [OtherByte(Contents(key, files, at), data)] + Zeros(11);
    var faults := Faults(false, 0, 0, false, |data| + 28, |data| + 28, false, false);
    var after := SaveFiles(files, at.path, Blob(key, nonce, data), faults, 2);
    BlobStart(key, nonce, data);
    assert after[at.legacy] == [nonce[0]];
    assert Torn(key, files, at, nonce, data, faults, 2);
  }

  /** With a close that loses nothing, a save is atomic exactly unless its temporary file is the plaintext store still in use. */
  lemma SaveIsAtomic(key: seq<byte>, files: Files, at: Places, data: seq<byte>)
    requires |key| == 32
    ensures Atomic(key, files, at, data, true) <==> at.legacy != Temp(at.path) || at.path in files
  {
    hide Torn;
    if at.legacy != Temp(at.path) || at.path in files {
      forall nonce: seq<byte>, faults: Faults, life: nat | |nonce| == 12 && faults.kept >= |data| + 28
        ensures !Torn(key, files, at, nonce, data, faults, life)
      {
        NeverTorn(key, files, at, nonce, data, faults, life);
      }
    } else {
      TornAtTemp(key, files, at, data);
    }
  }

  /** A close that loses everything replaces old contents by none at all, and the save reports success. */
  lemma LostCloseTears(key: seq<byte>, files: Files, at: Places, data: seq<byte>)
    requires |key| == 32 && data != [] && Contents(key, files, at) != []
    ensures !Atomic(key, files, at, data, false)
    ensures var faults := Faults(false, 0, 0, false, |data| + 28, 0, false, false);
      && SaveSucceeds(Blob(key, Zeros(12), data), faults)
      && Contents(key, SaveFiles(files, at.path, Blob(key, Zeros(12), data), faults, 2), at) == []
  {
    hide Blob;
    var faults := Faults(false, 0, 0, false, |data| + 28, 0, false, false);
    assert Torn(key, files, at, Zeros(12), data, faults, 2);
  }

  // ---------------------------------------------------------------- an import loses nothing

  /** The plaintext is still there, or the store file decrypts to it. */
  ghost predicate Safe(key: seq<byte>, files: Files, at: Places, data: seq<byte>)
    requires |key| == 32
  {
    if at.path in files then Decrypted(key, files[at.path]) == data
    else at.legacy != "" && at.legacy in files && files[at.legacy] == data
  }

  lemma SafeMeansLoads(key: seq<byte>, files: Files, at: Places, data: seq<byte>)
    requires |key| == 32 && Safe(key, files, at, data)
    ensures Contents(key, files, at) == data
  {
  }

  /** A load under these faults can lose the plaintext: it is truncated, or a short copy replaces it unnoticed. */
  ghost predicate Loses(at: Places, data: seq<byte>, faults: Faults) {
    && !faults.probeThrows && faults.legacyRead > 0 && !faults.openFails
    && (|| at.legacy == Temp(at.path)
        || (&& Least(faults.legacyRead, |data|) + 28 <= faults.room && !faults.renameFails
            && (faults.legacyRead < |data| || faults.kept < |data| + 28)))
  }

  lemma LoadKeepsSafe(key: seq<byte>, files: Files, at: Places, data: seq<byte>, nonce: seq<byte>, faults: Faults, life: nat)
    requires |key| == 32 && |nonce| == 12 && Safe(key, files, at, data) && !Loses(at, data, faults)
    ensures Safe(key, LoadFiles(key, files, at, nonce, faults, life), at, data)
  {
    hide Decrypted, Blob;
    if ImportsNow(files, at, faults) && faults.legacyRead >= |data| {
      assert Prefix(data, faults.legacyRead) == data;
      CutBlob(key, nonce, data, faults.kept);
      var blob := Blob(key, nonce, data);
      assert Prefix(blob, faults.kept) == blob[..Least(faults.kept, |blob|)];
    }
  }

  /** One load that ran for `life` disk operations and met `faults`. */
  datatype Attempt = Attempt(nonce: seq<byte>, faults: Faults, life: nat)

  ghost predicate Attempts(tries: seq<Attempt>) {
    forall i :: 0 <= i < |tries| ==> |tries[i].nonce| == 12
  }

  ghost function AfterLoads(key: seq<byte>, files: Files, at: Places, tries: seq<Attempt>): (f: Files)
    requires |key| == 32 && Attempts(tries)
  {
    if |tries| == 0 then files
    else
      var t := tries[|tries| - 1];
      LoadFiles(key, AfterLoads(key, files, at, tries[..|tries| - 1]), at, t.nonce, t.faults, t.life)
  }

  lemma {:induction false} LoadsKeepSafe(key: seq<byte>, files: Files, at: Places, data: seq<byte>, tries: seq<Attempt>)
    requires |key| == 32 && Attempts(tries) && Safe(key, files, at, data)
    requires forall i :: 0 <= i < |tries| ==> !Loses(at, data, tries[i].faults)
    ensures Safe(key, AfterLoads(key, files, at, tries), at, data)
  {
    hide Safe, LoadFiles, Loses;
    if |tries| > 0 {
      var n := |tries| - 1;
      LoadsKeepSafe(key, files, at, data, tries[..n]);
      var t := tries[n];
      LoadKeepsSafe(key, AfterLoads(key, files, at, tries[..n]), at, data, t.nonce, t.faults, t.life);
    }
  }

  /** Long enough for every step of the import. */
  ghost function Unhurried(data: seq<byte>): (n: nat) {
    |data| + 31
  }

  /** The life of a process that loses the plaintext. */
  ghost function FatalLife(at: Places, data: seq<byte>): (n: nat) {
    if at.legacy == Temp(at.path) then 1 else Unhurried(data)
  }

  /** The losing input: dying with the temporary file just opened over the plaintext, or importing a short copy. */
  lemma LosingLoad(key: seq<byte>, files: Files, at: Places, nonce: seq<byte>, faults: Faults)
    requires |key| == 32 && |nonce| == 12 && Imports(files, at) && Loses(at, files[at.legacy], faults)
    ensures var data := files[at.legacy];
      Contents(key, LoadFiles(key, files, at, nonce, faults, FatalLife(at, data)), at) != data
  {
    hide Decrypted, Blob;
    var data := files[at.legacy];
    var read := Prefix(data, faults.legacyRead);
    var blob := Blob(key, nonce, read);
    CutBlob(key, nonce, read, faults.kept);
    DecryptedLength(key, Prefix(blob, faults.kept));
    assert Prefix(blob, faults.kept) == blob[..Least(faults.kept, |blob|)];
  }

  lemma DeadLoad(key: seq<byte>, files: Files, at: Places, nonce: seq<byte>, faults: Faults)
    requires |key| == 32 && |nonce| == 12
    ensures LoadFiles(key, files, at, nonce, faults, 0) == files
  {
    hide Blob;
  }

  /** Attempts that meet the given faults. */
  ghost predicate Meet(tries: seq<Attempt>, faults: seq<Faults>) {
    Attempts(tries) && |tries| == |faults| && forall i :: 0 <= i < |tries| ==> tries[i].faults == faults[i]
  }

  /** However long each load lives, the contents are still found after all of them. */
  ghost predicate Endures(key: seq<byte>, files: Files, at: Places, faults: seq<Faults>)
    requires |key| == 32
  {
    forall tries :: Meet(tries, faults) ==> Contents(key, AfterLoads(key, files, at, tries), at) == Contents(key, files, at)
  }

  /** Only the load at `k` runs, and runs to the fatal point. */
  ghost function OnlyAt(at: Places, data: seq<byte>, faults: seq<Faults>, k: nat): (tries: seq<Attempt>)
    ensures Meet(tries, faults)
  {
    var nonce := Zeros(12);
    seq(|faults|, i requires 0 <= i < |faults| => Attempt(nonce, faults[i], if i == k then FatalLife(at, data) else 0))
  }

  lemma {:induction false} OnlyOneRuns(key: seq<byte>, files: Files, at: Places, faults: seq<Faults>, k: nat, n: nat)
    requires |key| == 32 && Imports(files, at) && n <= |faults|
    ensures var tries := OnlyAt(at, files[at.legacy], faults, k);
      AfterLoads(key, files, at, tries[..n]) ==
        if k < n then LoadFiles(key, files, at, Zeros(12), faults[k], FatalLife(at, files[at.legacy])) else files
  {
    hide LoadFiles, FatalLife;
    var tries := OnlyAt(at, files[at.legacy], faults, k);
    if n > 0 {
      OnlyOneRuns(key, files, at, faults, k, n - 1);
      assert tries[..n][..n - 1] == tries[..n - 1];
      if n - 1 != k {
        DeadLoad(key, AfterLoads(key, files, at, tries[..n - 1]), at, Zeros(12), faults[n - 1]);
      }
    }
  }

  /**
   * Any number of loads, each cut anywhere, keeps the contents of a plaintext store exactly if
   * none meets the faults that can lose them.
   */
  lemma LegacySurvives(key: seq<byte>, files: Files, at: Places, faults: seq<Faults>)
    requires |key| == 32 && Imports(files, at)
    ensures Endures(key, files, at, faults) <==>
      forall i :: 0 <= i < |faults| ==> !Loses(at, files[at.legacy], faults[i])
  {
    hide LoadFiles, Loses, FatalLife;
    var data := files[at.legacy];
    if k: nat :| k < |faults| && Loses(at, data, faults[k]) {
      var tries := OnlyAt(at, data, faults, k);
      OnlyOneRuns(key, files, at, faults, k, |faults|);
      assert tries[..|faults|] == tries;
      LosingLoad(key, files, at, Zeros(12), faults[k]);
    } else {
      forall tries | Meet(tries, faults)
        ensures Contents(key, AfterLoads(key, files, at, tries), at) == data
      {
        LoadsKeepSafe(key, files, at, data, tries);
        SafeMeansLoads(key, AfterLoads(key, files, at, tries), at, data);
      }
    }
  }

  /** When nothing is lost at a close and the plaintext is read whole, an import is safe exactly if the two paths differ. */
  lemma ImportIsCrashSafe(key: seq<byte>, files: Files, at: Places)
    requires |key| == 32 && Imports(files, at)
    ensures (forall faults: seq<Faults> :: AllLossless(files[at.legacy], faults) ==> Endures(key, files, at, faults))
      <==> at.legacy != Temp(at.path)
  {
    hide Endures;
    var data := files[at.legacy];
    forall faults: seq<Faults> | AllLossless(data, faults)
      ensures at.legacy != Temp(at.path) ==> Endures(key, files, at, faults)
    {
      LegacySurvives(key, files, at, faults);
    }
    var plain := [Faults(false, |data|, 0, false, |data| + 28, |data| + 28, false, false)];
    LegacySurvives(key, files, at, plain);
    assert at.legacy == Temp(at.path) ==> Loses(at, data, plain[0]);
    assert AllLossless(data, plain);
  }

  /** The plaintext is read whole and no byte of its copy is lost. */
  ghost predicate AllLossless(data: seq<byte>, faults: seq<Faults>) {
    forall i :: 0 <= i < |faults| ==> faults[i].legacyRead >= |data| && faults[i].kept >= |data| + 28
  }

  // ---------------------------------------------------------------- what stands on the disk

  /** The file of `data`: the nonce, the sealed bytes and their tag, in this order. */
  ghost predicate Seals(b: seq<byte>, key: seq<byte>, nonce: seq<byte>, data: seq<byte>)
    requires |key| == 32 && |nonce| == 12
  {
    && |b| == |data| + 28 && b[..12] == nonce
    && (b[12..|data| + 12], b[|data| + 12..]) == Aead.Sealed(key, nonce, data)
  }

  lemma BlobSeals(key: seq<byte>, nonce: seq<byte>, data: seq<byte>)
    requires |key| == 32 && |nonce| == 12
    ensures Seals(Blob(key, nonce, data), key, nonce, data)
  {
    hide Aead.Sealed;
    var (ct, tag) := Aead.Sealed(key, nonce, data);
    var b := Blob(key, nonce, data);
    assert b[12..|data| + 12] == ct && b[|data| + 12..] == tag;
  }

  /** A file gives contents exactly if it seals them under the nonce it starts with. */
  lemma DecryptsExactly(key: seq<byte>, b: seq<byte>, data: seq<byte>)
    requires |key| == 32 && data != []
    ensures Decrypted(key, b) == data <==> |b| >= 12 && Seals(b, key, b[..12], data)
  {
    hide Aead.Open, Aead.Sealed;
    if |b| >= 28 {
      var n := |b| - 16;
      Aead.OpenIffSealed(key, b[..12], b[12..n], b[n..], data);
    }
  }

  ghost predicate Unhindered(data: seq<byte>, faults: Faults, life: nat) {
    && !faults.openFails && !faults.renameFails
    && |data| + 28 <= faults.room && |data| + 28 <= faults.kept && |data| + 30 <= life
  }

  /** An unhindered save leaves the sealed data under its path, no temporary file, and all else as it was. */
  lemma SaveCompletes(key: seq<byte>, files: Files, path: string, nonce: seq<byte>, data: seq<byte>, faults: Faults, life: nat)
    requires |key| == 32 && |nonce| == 12 && Unhindered(data, faults, life)
    ensures var after := SaveFiles(files, path, Blob(key, nonce, data), faults, life);
      && path in after && Seals(after[path], key, nonce, data)
      && after.Keys == files.Keys - {path + ".tmp"} + {path}
      && forall p :: p in after && p != path ==> after[p] == files[p]
  {
    hide Blob, Seals;
    BlobSeals(key, nonce, data);
    var b := Blob(key, nonce, data);
    assert b[..|b|] == b;
  }

  /** However a save ends, nothing but its path and its temporary file is touched, and a reported failure spares the path. */
  lemma SaveTouches(files: Files, path: string, blob: seq<byte>, faults: Faults, life: nat, p: string)
    requires p != path + ".tmp" && (p == path ==> !SaveSucceeds(blob, faults))
    ensures var after := SaveFiles(files, path, blob, faults, life);
      (p in after <==> p in files) && (p in files ==> after[p] == files[p])
  {
  }

  /** An unhindered load of a plaintext store seals its contents under the path, removes it, and leaves all else. */
  lemma ImportCompletes(key: seq<byte>, files: Files, at: Places, nonce: seq<byte>, faults: Faults, life: nat)
    requires |key| == 32 && |nonce| == 12 && at.legacy != at.path + ".tmp"
    requires at.legacy != "" && at.path !in files && at.legacy in files && files[at.legacy] != []
    requires !faults.probeThrows && faults.legacyRead >= |files[at.legacy]| && !faults.removeFails
    requires life > 0 && Unhindered(files[at.legacy], faults, life - 1)
    ensures var data, after := files[at.legacy], LoadFiles(key, files, at, nonce, faults, life);
      && at.path in after && Seals(after[at.path], key, nonce, data)
      && after.Keys == files.Keys - {at.path + ".tmp"} - {at.legacy} + {at.path}
      && forall p :: p in after && p != at.path ==> after[p] == files[p]
  {
    hide Blob, Seals, SaveFiles, SaveLife;
    var data := files[at.legacy];
    var blob := Blob(key, nonce, data);
    SaveCompletes(key, files, at.path, nonce, data, faults, life);
    LifeLeft(blob, faults, life);
  }

  lemma LifeLeft(blob: seq<byte>, faults: Faults, life: nat)
    requires SaveSucceeds(blob, faults) && life > |blob| + 2
    ensures SaveLife(blob, faults, life) > 0
  {
  }

  /** A load that finds nothing to import writes nothing. */
  lemma LoadWritesNothing(key: seq<byte>, files: Files, at: Places, nonce: seq<byte>, faults: Faults, life: nat)
    requires |key| == 32 && |nonce| == 12
    requires at.legacy == "" || at.path in files || at.legacy !in files || files[at.legacy] == []
    ensures LoadFiles(key, files, at, nonce, faults, life) == files
  {
    hide Blob, SaveFiles;
  }
}
