/** `struct osfs_dir_entry` as bytes, shared by both variants: a 255-byte
    NUL-terminated name field, one padding byte, and the little-endian inode
    number at offset 256. Also the C string routines the directory code
    applies to it, the decoded view of an entry array, and what `dir_emit`
    receives. */
module Dirent {
  import opened Types
  import opened Layout
  import opened Region
  import opened Inodes

  datatype DirEntry = DirEntry(name: seq<byte>, ino: u32)

  predicate NoNul(s: seq<byte>) {
    forall i | 0 <= i < |s| :: s[i] != 0
  }

  /** The string a `char` field holds: the bytes before its first NUL, or the
      whole field if it has none. */
  function CStr(field: seq<byte>): (r: seq<byte>)
    ensures |r| <= |field| && r == field[..|r|] && NoNul(r)
    ensures |r| < |field| ==> field[|r|] == 0
  {
    if |field| == 0 || field[0] == 0 then [] else [field[0]] + CStr(field[1..])
  }

  lemma CStrOfNoNul(s: seq<byte>)
    requires NoNul(s)
    ensures CStr(s) == s
  {
  }

  /** `strncmp(a, b, n) == 0`. */
  function StrncmpEq(a: seq<byte>, b: seq<byte>, n: nat): bool
    requires n <= |a| && n <= |b|
  {
    n == 0 || (a[0] == b[0] && (a[0] == 0 || StrncmpEq(a[1..], b[1..], n - 1)))
  }

  /** The directory code's match test:
      `strlen(field) == len && strncmp(field, name, len) == 0`. */
  predicate NameMatches(field: seq<byte>, name: seq<byte>) {
    |CStr(field)| == |name| && StrncmpEq(field, name, |name|)
  }

  lemma {:induction false} StrncmpEqWithoutNul(a: seq<byte>, b: seq<byte>, n: nat)
    requires n <= |a| && n <= |b| && NoNul(a[..n])
    ensures StrncmpEq(a, b, n) <==> a[..n] == b[..n]
  {
    if n > 0 {
      assert a[..n][0] == a[0];
      assert a[1..][..n - 1] == a[1..n];
      StrncmpEqWithoutNul(a[1..], b[1..], n - 1);
      ConsPrefix(a, n);
      ConsPrefix(b, n);
    }
  }

  /** A non-empty prefix is its first element before a prefix of the rest. */
  lemma ConsPrefix<T>(x: seq<T>, n: nat)
    requires 0 < n <= |x|
    ensures x[..n] == [x[0]] + x[1..][..n - 1]
  {
    forall i | 0 <= i < n
      ensures x[..n][i] == ([x[0]] + x[1..][..n - 1])[i]
    {
      if i > 0 {
        assert ([x[0]] + x[1..][..n - 1])[i] == x[1..][..n - 1][i - 1];
      }
    }
  }

  /** The match test accepts exactly the entries whose stored string is the
      query, byte for byte. */
  lemma NameMatchesIff(field: seq<byte>, name: seq<byte>)
    ensures NameMatches(field, name) <==> CStr(field) == name
  {
    var s := CStr(field);
    if |s| == |name| {
      StrncmpEqWithoutNul(field, name, |name|);
      assert name[..|name|] == name;
    }
  }

  /** `strncpy(dest, src, n)`: the bytes of `src` up to its first NUL, then
      NUL padding to `n` bytes. */
  function Strncpy(src: seq<byte>, n: nat): (r: seq<byte>)
    requires n <= |src|
    ensures |r| == n
  {
    if n == 0 then []
    else if src[0] == 0 then seq(n, _ => 0)
    else [src[0]] + Strncpy(src[1..], n - 1)
  }

  /** A name copied by `strncpy` and terminated by a NUL reads back as the
      string the name holds. */
  lemma {:induction false} StrncpyReadsBack(src: seq<byte>, rest: seq<byte>)
    ensures CStr(Strncpy(src, |src|) + [0] + rest) == CStr(src)
  {
    if |src| > 0 {
      if src[0] == 0 {
        assert (Strncpy(src, |src|) + [0] + rest)[0] == 0;
      } else {
        StrncpyReadsBack(src[1..], rest);
        assert (Strncpy(src, |src|) + [0] + rest)[1..] == Strncpy(src[1..], |src| - 1) + [0] + rest;
      }
    }
  }

  /** The entry a 260-byte record holds. `strlen` of the name field runs on
      into the padding byte after it, which holds the NUL of a 255-byte
      name. */
  function DecodeEntry(rec: seq<byte>): DirEntry
    requires |rec| == DIRENT_SIZE
  {
    DirEntry(CStr(rec[..DIRENT_INO_OFFSET]), FromLe32(rec[DIRENT_INO_OFFSET..DIRENT_SIZE]))
  }

  /** The record after `strncpy(filename, name, len)`, `filename[len] = '\0'`
      and `inode_no = ino`; the bytes between the NUL and the inode number
      keep what they held. */
  function EncodeEntry(rec: seq<byte>, name: seq<byte>, ino: u32): (r: seq<byte>)
    requires |rec| == DIRENT_SIZE && |name| <= MAX_FILENAME_LEN
    ensures |r| == DIRENT_SIZE
  {
    Strncpy(name, |name|) + [0] + rec[|name| + 1..DIRENT_INO_OFFSET] + Le32(ino)
  }

  lemma EncodedName(rec: seq<byte>, name: seq<byte>, ino: u32)
    requires |rec| == DIRENT_SIZE && |name| <= MAX_FILENAME_LEN
    ensures CStr(EncodeEntry(rec, name, ino)[..DIRENT_INO_OFFSET]) == CStr(name)
  {
    var b := rec[|name| + 1..DIRENT_INO_OFFSET];
    assert EncodeEntry(rec, name, ino)[..DIRENT_INO_OFFSET] == Strncpy(name, |name|) + [0] + b;
    StrncpyReadsBack(name, b);
  }

  lemma EncodedIno(rec: seq<byte>, name: seq<byte>, ino: u32)
    requires |rec| == DIRENT_SIZE && |name| <= MAX_FILENAME_LEN
    ensures FromLe32(EncodeEntry(rec, name, ino)[DIRENT_INO_OFFSET..DIRENT_SIZE]) == ino
  {
    assert EncodeEntry(rec, name, ino)[DIRENT_INO_OFFSET..DIRENT_SIZE] == Le32(ino);
    Le32RoundTrip(ino);
  }

  /** Writing an entry and reading it back gives the stored string and the
      inode number. */
  lemma DecodeEncode(rec: seq<byte>, name: seq<byte>, ino: u32)
    requires |rec| == DIRENT_SIZE && |name| <= MAX_FILENAME_LEN
    ensures DecodeEntry(EncodeEntry(rec, name, ino)) == DirEntry(CStr(name), ino)
  {
    EncodedName(rec, name, ino);
    EncodedIno(rec, name, ino);
  }

  /** Record `k` of an entry array. */
  function Slot(area: seq<byte>, k: nat): seq<byte>
    requires (k + 1) * DIRENT_SIZE <= |area|
  {
    area[k * DIRENT_SIZE..k * DIRENT_SIZE + DIRENT_SIZE]
  }

  function EntryAt(area: seq<byte>, k: nat): DirEntry
    requires (k + 1) * DIRENT_SIZE <= |area|
  {
    DecodeEntry(Slot(area, k))
  }

  /** The first `n` entries of an entry array, decoded. */
  function Entries(area: seq<byte>, n: nat): (es: seq<DirEntry>)
    requires n * DIRENT_SIZE <= |area|
    ensures |es| == n
    ensures forall k | 0 <= k < n :: es[k] == EntryAt(area, k)
  {
    seq(n, k requires 0 <= k < n => EntryAt(area, k))
  }

  /** The entry array after writing entry `k`. */
  function PutEntry(area: seq<byte>, k: nat, name: seq<byte>, ino: u32): (r: seq<byte>)
    requires (k + 1) * DIRENT_SIZE <= |area| && |name| <= MAX_FILENAME_LEN
    ensures |r| == |area|
  {
    area[..k * DIRENT_SIZE] + EncodeEntry(Slot(area, k), name, ino) + area[k * DIRENT_SIZE + DIRENT_SIZE..]
  }

  /** Writing entry `k` changes record `k` only. */
  lemma PutEntrySlots(area: seq<byte>, k: nat, name: seq<byte>, ino: u32, j: nat)
    requires (k + 1) * DIRENT_SIZE <= |area| && |name| <= MAX_FILENAME_LEN
    requires (j + 1) * DIRENT_SIZE <= |area|
    ensures j == k ==> Slot(PutEntry(area, k, name, ino), j) == EncodeEntry(Slot(area, k), name, ino)
    ensures j != k ==> Slot(PutEntry(area, k, name, ino), j) == Slot(area, j)
  {
    var r := PutEntry(area, k, name, ino);
    var lo, hi := k * DIRENT_SIZE, k * DIRENT_SIZE + DIRENT_SIZE;
    assert r == area[..lo] + EncodeEntry(Slot(area, k), name, ino) + area[hi..];
    if j < k {
      assert (j + 1) * DIRENT_SIZE <= lo;
    } else if j > k {
      assert j * DIRENT_SIZE >= hi;
    }
    if j != k {
      forall i | 0 <= i < DIRENT_SIZE
        ensures Slot(r, j)[i] == Slot(area, j)[i]
      {
        var x := j * DIRENT_SIZE + i;
        assert Slot(r, j)[i] == r[x] && Slot(area, j)[i] == area[x];
        if x < lo {
          assert r[x] == area[..lo][x];
        } else {
          assert x >= hi;
          assert r[x] == area[hi..][x - hi];
        }
      }
    }
  }

  lemma PutEntryKeepsOthers(area: seq<byte>, k: nat, name: seq<byte>, ino: u32)
    requires (k + 1) * DIRENT_SIZE <= |area| && |name| <= MAX_FILENAME_LEN
    ensures forall j: nat | (j + 1) * DIRENT_SIZE <= |area| && j != k ::
      EntryAt(PutEntry(area, k, name, ino), j) == EntryAt(area, j)
  {
    forall j: nat | (j + 1) * DIRENT_SIZE <= |area| && j != k
      ensures EntryAt(PutEntry(area, k, name, ino), j) == EntryAt(area, j)
    {
      PutEntrySlots(area, k, name, ino, j);
    }
  }

  lemma PutEntryReadsBack(area: seq<byte>, k: nat, name: seq<byte>, ino: u32)
    requires (k + 1) * DIRENT_SIZE <= |area| && |name| <= MAX_FILENAME_LEN
    ensures EntryAt(PutEntry(area, k, name, ino), k) == DirEntry(CStr(name), ino)
  {
    PutEntrySlots(area, k, name, ino, k);
    DecodeEncode(Slot(area, k), name, ino);
  }

  /** Writing entry `n` past the first `n` appends it to the decoded array
      and leaves the earlier entries as they were. */
  lemma AppendEntry(area: seq<byte>, n: nat, name: seq<byte>, ino: u32)
    requires (n + 1) * DIRENT_SIZE <= |area| && |name| <= MAX_FILENAME_LEN
    ensures Entries(PutEntry(area, n, name, ino), n + 1) == Entries(area, n) + [DirEntry(CStr(name), ino)]
  {
    PutEntryKeepsOthers(area, n, name, ino);
    PutEntryReadsBack(area, n, name, ino);
    EntriesOneMore(area, PutEntry(area, n, name, ino), n, DirEntry(CStr(name), ino));
  }

  /** An array whose first `n` entries are those of `area` and whose entry
      `n` is `e` decodes to the entries of `area` followed by `e`. */
  lemma EntriesOneMore(area: seq<byte>, r: seq<byte>, n: nat, e: DirEntry)
    requires (n + 1) * DIRENT_SIZE <= |area| == |r|
    requires forall j: nat | (j + 1) * DIRENT_SIZE <= |area| && j != n :: EntryAt(r, j) == EntryAt(area, j)
    requires EntryAt(r, n) == e
    ensures Entries(r, n + 1) == Entries(area, n) + [e]
  {
    var after, want := Entries(r, n + 1), Entries(area, n) + [e];
    forall j | 0 <= j < n + 1
      ensures after[j] == want[j]
    {
      if j < n {
        assert j * DIRENT_SIZE + DIRENT_SIZE <= n * DIRENT_SIZE;
      }
    }
  }

  /** The index of the first entry named `name` at or after `from`. */
  function FindFrom(es: seq<DirEntry>, name: seq<byte>, from: nat): (r: Option<nat>)
    ensures r.Some? ==> from <= r.value < |es| && es[r.value].name == name
    ensures r.Some? ==> forall j | from <= j < r.value :: es[j].name != name
    ensures r.None? <==> forall j | from <= j < |es| :: es[j].name != name
    decreases |es| - from
  {
    if from >= |es| then None
    else if es[from].name == name then Some(from)
    else FindFrom(es, name, from + 1)
  }

  /** The first entry named `name`: what a scan from index 0 stops at. */
  function FindEntry(es: seq<DirEntry>, name: seq<byte>): Option<nat> {
    FindFrom(es, name, 0)
  }

  /** An appended entry is found by its name unless an earlier entry has the
      same name, in which case the earlier one still wins. */
  lemma FindAfterAppend(es: seq<DirEntry>, e: DirEntry, name: seq<byte>)
    ensures FindEntry(es, name).Some? ==> FindEntry(es + [e], name) == FindEntry(es, name)
    ensures FindEntry(es, name).None? && e.name == name ==> FindEntry(es + [e], name) == Some(|es|)
    ensures FindEntry(es, name).None? && e.name != name ==> FindEntry(es + [e], name).None?
  {
    var es' := es + [e];
    assert forall j | 0 <= j < |es| :: es'[j] == es[j];
    assert es'[|es|] == e;
  }

  /** What `osfs_lookup` hands back: `NULL` (`Ok(None)`) when no entry has the
      name, else the VFS inode `osfs_iget` builds for the first match, or its
      error. */
  function Resolve(sb: SbInfo, es: seq<DirEntry>, name: seq<byte>, vfsOk: bool): Result<Option<VfsInode>>
    reads sb, sb.inodeTable, sb.dataBlocks
    requires sb.Valid()
  {
    match FindEntry(es, name)
    case None => Ok(None)
    case Some(k) =>
      match Iget(sb, es[k].ino, vfsOk)
      case Err(e) => Err(e)
      case Ok(inode) => Ok(Some(inode))
  }

  /** What one `dir_emit` or `dir_emit_dots` call hands to the VFS. */
  datatype Emit = Dot | DotDot | Named(name: seq<byte>, ino: u32)

  function Names(es: seq<DirEntry>): (r: seq<Emit>)
    ensures |r| == |es|
    ensures forall i | 0 <= i < |es| :: r[i] == Named(es[i].name, es[i].ino)
  {
    seq(|es|, i requires 0 <= i < |es| => Named(es[i].name, es[i].ino))
  }

  /** The result of one call of `osfs_iterate`: its return code, what it
      emitted, and the new `ctx->pos`. */
  datatype Listing = Listing(rc: Outcome, emitted: seq<Emit>, pos: int)

  /** Emitting `es[start..]` into a buffer that accepts `room` more entries:
      the first refused entry stops the scan with `-EINVAL`; `pos` advances
      once per emitted entry. */
  function EmitFrom(es: seq<DirEntry>, start: nat, room: nat, pos: int): (l: Listing)
    ensures l.rc == Pass ==> l.emitted == Names(es[Min(start, |es|)..])
    ensures l.rc.Fail? ==> l.rc == Fail(EINVAL) && |l.emitted| == room
    ensures |l.emitted| <= room && l.pos == pos + |l.emitted|
  {
    var rest := Names(es[Min(start, |es|)..]);
    if |rest| <= room then Listing(Pass, rest, pos + |rest|)
    else Listing(Fail(EINVAL), rest[..room], pos + room)
  }

  /** A listing cut short by a full buffer resumes, at the position it
      reached, with exactly the entries it had not yet emitted. */
  lemma EmitFromResumes(es: seq<DirEntry>, start: nat, room1: nat, room2: nat, pos: int)
    requires start <= |es|
    requires EmitFrom(es, start, room1, pos).rc.Fail?
    ensures var first := EmitFrom(es, start, room1, pos);
      var second := EmitFrom(es, start + room1, room2, first.pos);
      && second.pos == pos + |first.emitted| + |second.emitted|
      && first.emitted + second.emitted == Names(es[start..])[..room1 + |second.emitted|]
  {
    var all := Names(es[start..]);
    var tail := Names(es[Min(start + room1, |es|)..]);
    assert tail == all[room1..];
  }
}
