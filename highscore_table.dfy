/**
 * The highscore file: a 4-byte magic number ("HISC"), a 2-byte version, a 2-byte entry
 * count, then per entry a length-prefixed nick, a length-prefixed last word, the score and
 * the number of words solved, all little-endian. Nicks stay bytes (their UTF-8 decoding is
 * not modelled).
 */
module HighscoreTable {
  import opened Wrappers
  import opened Bytes

  const HighscoreMagic: nat := 0x48495343
  const HighscoreV0000: nat := 1

  datatype HighscoreEntry = HighscoreEntry(nick: seq<byte>, lastWord: seq<byte>, score: nat, numWordsSolved: nat)

  // ---------------------------------------------------------------------------
  // The reading, as functions of the bytes

  /** One entry at `off`, and the offset after it; None when a read runs past the end. */
  function ReadEntry(data: seq<byte>, off: nat): (r: Option<(HighscoreEntry, nat)>)
    ensures r.Some? ==> r.value.1 == off + 12 + |r.value.0.nick| + |r.value.0.lastWord| <= |data|
  {
    match U16(data, off)
    case None => None
    case Some(nickLen) =>
      var nick := Slice(data, off + 2, off + 2 + nickLen);
      var o2 := off + 2 + nickLen;
      match U16(data, o2)
      case None => None
      case Some(lastWordLen) =>
        var o3 := o2 + 2;
        if o3 + lastWordLen > |data| then None
        else
          var o4 := o3 + lastWordLen;
          match U32(data, o4)
          case None => None
          case Some(score) =>
            match U32(data, o4 + 4)
            case None => None
            case Some(solved) =>
              Some((HighscoreEntry(nick, data[o3..o4], score, solved), o4 + 8))
  }

  /** The entry count of a file with the right magic number and version; None otherwise. */
  function HeaderCount(data: seq<byte>): (r: Option<nat>)
    ensures r.Some? <==>
      U32(data, 0) == Some(HighscoreMagic) && U16(data, 4) == Some(HighscoreV0000) && U16(data, 6).Some?
    ensures r.Some? ==> r == U16(data, 6)
  {
    match U32(data, 0)
    case None => None
    case Some(magic) =>
      if magic != HighscoreMagic then None
      else
        match U16(data, 4)
        case None => None
        case Some(version) =>
          if version != HighscoreV0000 then None
          else U16(data, 6)
  }

  /** The entries the table holds after a successful fetch of `data`. */
  function ParseHighscores(data: seq<byte>): (r: Run<HighscoreEntry>)
    ensures HeaderCount(data).None? ==> r.items == []
    ensures HeaderCount(data).Some? ==> |r.items| <= HeaderCount(data).value
  {
    match HeaderCount(data)
    case None => Run([], 0, false)
    case Some(numEntries) => ReadRun(ReadEntry, data, 8, numEntries)
  }

  /** The header reads of `refresh`: a wrong magic number or version ends the parse. */
  method ReadHeader(data: seq<byte>) returns (numEntries: Option<nat>)
    ensures numEntries == HeaderCount(data)
  {
    var offset := 0;
    var magic := U32(data, offset);
    if magic.None? { return None; }
    offset := offset + 4;
    if magic.value != HighscoreMagic { return None; }
    var version := U16(data, offset);
    if version.None? { return None; }
    offset := offset + 2;
    if version.value != HighscoreV0000 { return None; }
    numEntries := U16(data, offset);
  }

  /** One pass of the entry loop: the reads of one entry, with the last word read byte by byte. */
  method ReadEntryAt(data: seq<byte>, offset: nat) returns (r: Option<(HighscoreEntry, nat)>)
    ensures r == ReadEntry(data, offset)
  {
    var off := offset;
    var nickLen := U16(data, off);
    if nickLen.None? { return None; }
    off := off + 2;
    var nick := Slice(data, off, off + nickLen.value);
    off := off + nickLen.value;
    var lastWordLen := U16(data, off);
    if lastWordLen.None? { return None; }
    off := off + 2;
    ghost var wordStart := off;
    var lastWord: seq<byte> := [];
    var j := 0;
    while j < lastWordLen.value
      invariant 0 <= j <= lastWordLen.value
      invariant off == wordStart + j <= |data|
      invariant lastWord == data[wordStart..off]
    {
      var b := U8(data, off);
      if b.None? { return None; }
      assert data[wordStart..off + 1] == data[wordStart..off] + [data[off]];
      lastWord := lastWord + [data[off]];
      off := off + 1;
      j := j + 1;
    }
    var score := U32(data, off);
    if score.None? { return None; }
    off := off + 4;
    var numWordsSolved := U32(data, off);
    if numWordsSolved.None? { return None; }
    off := off + 4;
    r := Some((HighscoreEntry(nick, lastWord, score.value, numWordsSolved.value), off));
  }

  // ---------------------------------------------------------------------------
  // The table

  class HighscoreTable {
    const base: string
    var entries: seq<HighscoreEntry>

    constructor (base: string)
      ensures this.base == base && entries == []
    {
      this.base := base;
      entries := [];
    }

    /** The entry loop: each entry read is pushed at once; a failing read ends the loop. */
    method LoadEntries(data: seq<byte>, numEntries: nat)
      modifies this`entries
      ensures entries == old(entries) + ReadRun(ReadEntry, data, 8, numEntries).items
    {
      var before := entries;
      var offset: nat := 8;
      var read: seq<HighscoreEntry> := [];
      var i := 0;
      while i < numEntries
        invariant 0 <= i <= numEntries
        invariant entries == before + read
        invariant ReadRun(ReadEntry, data, 8, i) == Run(read, offset, true)
      {
        var entry := ReadEntryAt(data, offset);
        ReadRunNext(ReadEntry, data, 8, i, numEntries, entry);
        if entry.None? {
          return;
        }
        read := read + [entry.value.0];
        entries := before + read;
        offset := entry.value.1;
        i := i + 1;
      }
    }

    /**
     * `refresh` after the fetch: `responseOk` and `data` are the response. A RangeError
     * from a read ends the parse (it is caught), keeping the entries read so far.
     */
    method Refresh(responseOk: bool, data: seq<byte>)
      modifies this
      ensures entries == if responseOk then ParseHighscores(data).items else old(entries)
    {
      if !responseOk {
        return;
      }
      entries := [];
      var numEntries := ReadHeader(data);
      if numEntries.None? { return; }
      LoadEntries(data, numEntries.value);
      assert entries == [] + ReadRun(ReadEntry, data, 8, numEntries.value).items;
    }
  }

  // ---------------------------------------------------------------------------
  // The file layout, written out, and what reading it gives back

  /** An entry whose fields fit their on-disk widths. */
  predicate WellFormedEntry(e: HighscoreEntry)
  {
    |e.nick| < U16Limit && |e.lastWord| < U16Limit && e.score < U32Limit && e.numWordsSolved < U32Limit
  }

  predicate WellFormed(es: seq<HighscoreEntry>)
  {
    |es| < U16Limit && forall e :: e in es ==> WellFormedEntry(e)
  }

  function EncodeEntry(e: HighscoreEntry): (s: seq<byte>)
    ensures |s| == 12 + |e.nick| + |e.lastWord|
  {
    LE16(|e.nick|) + e.nick + LE16(|e.lastWord|) + e.lastWord + LE32(e.score) + LE32(e.numWordsSolved)
  }

  function EncodeHighscores(es: seq<HighscoreEntry>): (s: seq<byte>)
  {
    LE32(HighscoreMagic) + LE16(HighscoreV0000) + LE16(|es|) + Concat(EncodeEntry, es)
  }

  /** The bytes of all entries: 12 fixed bytes plus the nick and the last word, per entry. */
  function EntriesSize(es: seq<HighscoreEntry>): nat
  {
    if es == [] then 0 else 12 + |es[0].nick| + |es[0].lastWord| + EntriesSize(es[1..])
  }

  lemma {:induction false} EncodeEntriesSize(es: seq<HighscoreEntry>)
    ensures |Concat(EncodeEntry, es)| == EntriesSize(es)
  {
    if es != [] {
      EncodeEntriesSize(es[1..]);
    }
  }

  // Where the fields of an entry written between `pre` and `post` sit, one pair of fields at a time.

  lemma NickFields(pre: seq<byte>, e: HighscoreEntry, post: seq<byte>)
    requires WellFormedEntry(e)
    ensures var data, o, n := pre + EncodeEntry(e) + post, |pre|, |e.nick|;
      U16(data, o) == Some(n) && Slice(data, o + 2, o + 2 + n) == e.nick
  {
    var n, w := |e.nick|, |e.lastWord|;
    var data := pre + EncodeEntry(e) + post;
    var t2 := LE16(w) + e.lastWord + LE32(e.score) + LE32(e.numWordsSolved) + post;
    assert data == pre + LE16(n) + (e.nick + t2);
    U16At(pre, n, e.nick + t2);
    assert data == (pre + LE16(n)) + e.nick + t2;
    SliceAt(pre + LE16(n), e.nick, t2);
  }

  lemma LastWordFields(pre: seq<byte>, e: HighscoreEntry, post: seq<byte>)
    requires WellFormedEntry(e)
    ensures var data, o, n, w := pre + EncodeEntry(e) + post, |pre|, |e.nick|, |e.lastWord|;
      U16(data, o + 2 + n) == Some(w) && o + 4 + n + w <= |data| && data[o + 4 + n..o + 4 + n + w] == e.lastWord
  {
    var w := |e.lastWord|;
    var data := pre + EncodeEntry(e) + post;
    var p2 := pre + LE16(|e.nick|) + e.nick;
    var t4 := LE32(e.score) + LE32(e.numWordsSolved) + post;
    assert data == p2 + LE16(w) + (e.lastWord + t4);
    U16At(p2, w, e.lastWord + t4);
    assert data == (p2 + LE16(w)) + e.lastWord + t4;
    SliceAt(p2 + LE16(w), e.lastWord, t4);
  }

  lemma CountFields(pre: seq<byte>, e: HighscoreEntry, post: seq<byte>)
    requires WellFormedEntry(e)
    ensures var data, o, n, w := pre + EncodeEntry(e) + post, |pre|, |e.nick|, |e.lastWord|;
      U32(data, o + 4 + n + w) == Some(e.score) && U32(data, o + 8 + n + w) == Some(e.numWordsSolved)
  {
    var data := pre + EncodeEntry(e) + post;
    var p4 := pre + LE16(|e.nick|) + e.nick + LE16(|e.lastWord|) + e.lastWord;
    assert data == p4 + LE32(e.score) + (LE32(e.numWordsSolved) + post);
    U32At(p4, e.score, LE32(e.numWordsSolved) + post);
    assert data == (p4 + LE32(e.score)) + LE32(e.numWordsSolved) + post;
    U32At(p4 + LE32(e.score), e.numWordsSolved, post);
  }

  /** An entry written between `pre` and `post` reads back at offset |pre|, and the parse continues after it. */
  lemma ReadEntryEncoded(pre: seq<byte>, e: HighscoreEntry, post: seq<byte>)
    requires WellFormedEntry(e)
    ensures ReadEntry(pre + EncodeEntry(e) + post, |pre|) == Some((e, |pre| + |EncodeEntry(e)|))
  {
    NickFields(pre, e, post);
    LastWordFields(pre, e, post);
    CountFields(pre, e, post);
  }

  /** A written file passes the header checks and announces its number of entries. */
  lemma HeaderEncoded(es: seq<HighscoreEntry>)
    requires WellFormed(es)
    ensures HeaderCount(EncodeHighscores(es)) == Some(|es|)
  {
    var data, entries := EncodeHighscores(es), Concat(EncodeEntry, es);
    var magic, version, count := LE32(HighscoreMagic), LE16(HighscoreV0000), LE16(|es|);
    assert data == [] + magic + (version + count + entries);
    U32At([], HighscoreMagic, version + count + entries);
    assert data == magic + version + (count + entries);
    U16At(magic, HighscoreV0000, count + entries);
    assert data == magic + version + count + entries;
    U16At(magic + version, |es|, entries);
  }

  /** Every well-formed entry reads back, wherever it is written. */
  lemma EntriesReadBack(es: seq<HighscoreEntry>)
    requires forall e :: e in es ==> WellFormedEntry(e)
    ensures forall x, p: seq<byte>, q: seq<byte> :: x in es ==> ReadEntry(p + EncodeEntry(x) + q, |p|) == Some((x, |p| + |EncodeEntry(x)|))
  {
    forall x, p: seq<byte>, q: seq<byte> | x in es
      ensures ReadEntry(p + EncodeEntry(x) + q, |p|) == Some((x, |p| + |EncodeEntry(x)|))
    {
      ReadEntryEncoded(p, x, q);
    }
  }

  /**
   * Round trip: parsing a written file gives back every entry, in file order, and stops
   * after 8 + the sum of 12 + nick length + last-word length over the entries.
   */
  lemma ParseEncoded(es: seq<HighscoreEntry>)
    requires WellFormed(es)
    ensures ParseHighscores(EncodeHighscores(es)) == Run(es, |EncodeHighscores(es)|, true)
    ensures |EncodeHighscores(es)| == 8 + EntriesSize(es)
  {
    var data, entries := EncodeHighscores(es), Concat(EncodeEntry, es);
    var header := LE32(HighscoreMagic) + LE16(HighscoreV0000) + LE16(|es|);
    EncodeEntriesSize(es);
    HeaderEncoded(es);
    EntriesReadBack(es);
    assert data == header + entries + [];
    ReadRunConcat(ReadEntry, EncodeEntry, header, es, []);
  }

  // ---------------------------------------------------------------------------
  // Files cut short

  /** An entry cut short anywhere fails to read: some read runs past the end of the buffer. */
  lemma ReadEntryTruncated(pre: seq<byte>, e: HighscoreEntry, k: nat)
    requires WellFormedEntry(e) && k < |EncodeEntry(e)|
    ensures ReadEntry(pre + EncodeEntry(e)[..k], |pre|).None?
  {
    var full, o, n, w := pre + EncodeEntry(e) + [], |pre|, |e.nick|, |e.lastWord|;
    var data := pre + EncodeEntry(e)[..k];
    assert data == full[..o + k];
    NickFields(pre, e, []);
    LastWordFields(pre, e, []);
    CountFields(pre, e, []);
    U16Prefix(full, o + k, o);
    U16Prefix(full, o + k, o + 2 + n);
    U32Prefix(full, o + k, o + 4 + n + w);
    U32Prefix(full, o + k, o + 8 + n + w);
  }

  /** The header of a file reads the same in any prefix that still holds its 8 bytes, and fails in a shorter one. */
  lemma HeaderPrefix(data: seq<byte>, m: nat)
    requires m <= |data|
    ensures 8 <= m ==> HeaderCount(data[..m]) == HeaderCount(data)
    ensures m < 8 ==> HeaderCount(data[..m]).None?
  {
    U32Prefix(data, m, 0);
    U16Prefix(data, m, 4);
    U16Prefix(data, m, 6);
  }

  /**
   * A written file cut short after `cut` bytes: the table keeps exactly the entries that
   * were written completely before the cut, in order, and none when the cut falls inside
   * the header.
   */
  lemma ParseTruncated(es: seq<HighscoreEntry>, cut: nat)
    requires WellFormed(es) && cut <= |EncodeHighscores(es)|
    ensures ParseHighscores(EncodeHighscores(es)[..cut]).items ==
      if cut < 8 then [] else es[..Fitting(EncodeEntry, es, cut - 8)]
  {
    var data, entries := EncodeHighscores(es), Concat(EncodeEntry, es);
    var header := LE32(HighscoreMagic) + LE16(HighscoreV0000) + LE16(|es|);
    HeaderPrefix(data, cut);
    if cut >= 8 {
      HeaderEncoded(es);
      assert data[..cut] == header + entries[..cut - 8];
      EntriesReadBack(es);
      forall x, p: seq<byte>, k: nat | x in es && k < |EncodeEntry(x)|
        ensures ReadEntry(p + EncodeEntry(x)[..k], |p|).None?
      {
        ReadEntryTruncated(p, x, k);
      }
      ReadRunConcatCut(ReadEntry, EncodeEntry, header, es, cut - 8);
    }
  }
}
