/** When a write or a copy leaves the stored size equal to the length of the contents. */
module WriteTheorems {
  import opened DirTree
  import opened FileContents
  import opened Handles
  import opened Namespace
  import opened NamespaceUpdates
  import opened NamespaceRuns

  /** New contents keep the invariant exactly when they are recorded with their own length. */
  lemma SetContentsValidIff(s: Fs, i: Ino, data: seq<byte>, size: nat, now: Time)
    requires Valid(s) && i in s.bytes
    ensures Valid(SetContents(s, i, data, size, now)) <==> size == |data|
  {
    if size == |data| {
      SetContentsKeeps(s, i, data, size, now);
    } else {
      var t := SetContents(s, i, data, size, now);
      assert i in t.inodes && i in t.bytes && t.inodes[i].size != |t.bytes[i]|;
    }
  }

  lemma SizeOf(s: Fs, i: Ino)
    requires Valid(s) && i in s.bytes
    ensures i in s.inodes && s.inodes[i].size == |s.bytes[i]|
  {
  }

  lemma BytesOfFile(s: Fs, i: Ino)
    requires Valid(s) && NotDirectory(s, i)
    ensures i in s.inodes <==> i in s.bytes
  {
  }

  /** A write keeps the invariant unless it is empty and lies past the end: then the size
      moves and no byte is written. */
  lemma WriteKeepsValidIff(s: Fs, ino: Ino, fh: nat, offset: nat, data: seq<byte>, now: Time)
    requires Valid(s) && NotDirectory(s, ino)
    ensures var w := DoWrite(s, ino, fh, offset, data, now);
            && (!w.reply.Error? ==> ino in s.bytes)
            && (Valid(w.fs) <==> w.reply.Error? || data != [] || offset <= |s.bytes[ino]|)
  {
    hide Valid, WriteAt, SetContents;
    BytesOfFile(s, ino);
    if !DoWrite(s, ino, fh, offset, data, now).reply.Error? {
      var size := Max(s.inodes[ino].size, offset + |data|);
      SizeOf(s, ino);
      SetContentsValidIff(s, ino, WriteAt(s.bytes[ino], offset, data), size, now);
      WriteKeepsSizeIff(s.bytes[ino], offset, data);
    }
  }

  /** So does a copy, unless there was nothing to copy and the destination lies past the end
      of its file. */
  lemma CopyKeepsValidIff(s: Fs, ino: Ino, fh: nat, offset: nat, dstIno: Ino, dstFh: nat, dstOffset: nat, length: nat,
                          now: Time)
    requires Valid(s) && NotDirectory(s, ino) && NotDirectory(s, dstIno)
    ensures var w := DoCopyRange(s, ino, fh, offset, dstIno, dstFh, dstOffset, length, now);
            && (!w.reply.Error? ==> ino in s.bytes && dstIno in s.bytes)
            && (Valid(w.fs) <==> || w.reply.Error? || Slice(s.bytes[ino], offset, length) != []
                                 || dstOffset <= |s.bytes[dstIno]|)
  {
    hide Valid, WriteAt, Slice, SetContents;
    BytesOfFile(s, dstIno);
    if !DoCopyRange(s, ino, fh, offset, dstIno, dstFh, dstOffset, length, now).reply.Error? {
      var data := Slice(s.bytes[ino], offset, length);
      var size := Max(s.inodes[dstIno].size, dstOffset + |data|);
      SizeOf(s, dstIno);
      SetContentsValidIff(s, dstIno, WriteAt(s.bytes[dstIno], dstOffset, data), size, now);
      WriteKeepsSizeIff(s.bytes[dstIno], dstOffset, data);
    }
  }

  lemma TheOneFile(now: Time)
    ensures var s := OneFile(now);
            2 in s.bytes && s.bytes[2] == [] && s.inodes[2].kind == File && !s.inodes[2].Immutable()
  {
  }

  lemma Rights()
    ensures CanRead(READ_BIT + WRITE_BIT) && CanWrite(READ_BIT + WRITE_BIT)
  {
  }

  /** An empty write at offset 1 of an empty file, and a copy of nothing from it to there: both
      answer that zero bytes were written, and leave a size of 1 for no contents. */
  lemma EmptyWritePastTheEnd(now: Time)
    ensures var s := OneFile(now);
            var fh := READ_BIT + WRITE_BIT;
            var w := DoWrite(s, 2, fh, 1, [], now);
            var c := DoCopyRange(s, 2, fh, 0, 2, fh, 1, 8, now);
            && w.reply == c.reply == Written(0) && !Valid(w.fs) && !Valid(c.fs)
            && w.fs.inodes[2].size == c.fs.inodes[2].size == 1 && w.fs.bytes[2] == c.fs.bytes[2] == []
  {
    OneFileIsValid(now);
    TheOneFile(now);
    Rights();
    hide Valid, OneFile, Slice, WriteAt, CanRead, CanWrite;
    var s, fh := OneFile(now), READ_BIT + WRITE_BIT;
    SizeOf(s, 2);
    assert Slice(s.bytes[2], 0, 8) == [] && WriteAt(s.bytes[2], 1, []) == [];
    WriteKeepsValidIff(s, 2, fh, 1, [], now);
    CopyKeepsValidIff(s, 2, fh, 0, 2, fh, 1, 8, now);
  }
}
