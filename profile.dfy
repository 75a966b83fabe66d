/**
 * The player profile file, as `ProfileSession.load` reads it after the fetch: a 4-byte
 * magic number, a 2-byte version and, for version 1, the time of the last update (signed
 * 64-bit), a length-prefixed nick, the number of clues, the score and a counted list of
 * solves, each a signed 64-bit time, a length-prefixed word and a length-prefixed clue.
 * All little-endian. Unlike the highscore table, the loader catches nothing: a read past
 * the end rejects the call and leaves every field set before it in place.
 */
module Profile {
  import opened Wrappers
  import opened Bytes

  const ProfileMagic: nat := 0x1fa1abce
  const ProfileV0000: nat := 1

  /** One solved word; the timestamp is kept as the integer read, the word and clue as bytes. */
  datatype Solve = Solve(timestamp: int, word: seq<byte>, clue: seq<byte>)

  /** How the `load` promise settles: normally, or rejected by a RangeError from a read. */
  datatype Outcome = Resolved | Rejected

  /**
   * What reading `data` does to the session: how it settles, the value given to each field
   * it reaches (None for a field it does not reach), the solves it appends, whether it
   * marks the session loaded, and the offset after the solves it read.
   */
  datatype Loaded = Loaded(outcome: Outcome, lastUpdated: Option<int>, nick: Option<seq<byte>>,
                           numClues: Option<nat>, score: Option<nat>, solves: seq<Solve>,
                           loaded: bool, end: nat)

  /** A read that reaches no field. */
  function Untouched(outcome: Outcome): Loaded
  {
    Loaded(outcome, None, None, None, None, [], false, 0)
  }

  /** One solve record at `off`. The clue's length is never checked against the buffer: its slice is clamped. */
  function ReadSolve(data: seq<byte>, off: nat): (r: Option<(Solve, nat)>)
    ensures r.Some? ==> off + 12 + |r.value.0.word| <= |data| && off + 12 + |r.value.0.word| + |r.value.0.clue| <= r.value.1
  {
    match I64(data, off)
    case None => None
    case Some(utc) =>
      match U16(data, off + 8)
      case None => None
      case Some(wordLen) =>
        var word := Slice(data, off + 10, off + 10 + wordLen);
        var o := off + 10 + wordLen;
        match U16(data, o)
        case None => None
        case Some(clueLen) =>
          var clue := Slice(data, o + 2, o + 2 + clueLen);
          Some((Solve(utc, word, clue), o + 2 + clueLen))
  }

  /** None for the header of a version-1 profile; otherwise how `load` settles without reading further. */
  function HeaderStop(data: seq<byte>): (r: Option<Outcome>)
    ensures r.None? <==> U32(data, 0) == Some(ProfileMagic) && U16(data, 4) == Some(ProfileV0000)
  {
    match U32(data, 0)
    case None => Some(Rejected)
    case Some(magic) =>
      if magic != ProfileMagic then Some(Resolved)
      else
        match U16(data, 4)
        case None => Some(Rejected)
        case Some(version) =>
          if version != ProfileV0000 then Some(Resolved) else None
  }

  /**
   * The fixed fields of a version-1 body, each None from the first read that fails on,
   * and where the solves start together with their count.
   */
  datatype Fixed = Fixed(lastUpdated: Option<int>, nick: Option<seq<byte>>, numClues: Option<nat>,
                         score: Option<nat>, solves: Option<(nat, nat)>)

  function ReadFixed(data: seq<byte>): (f: Fixed)
    ensures f.nick.Some? ==> f.lastUpdated.Some?
    ensures f.numClues.Some? ==> f.nick.Some?
    ensures f.score.Some? ==> f.numClues.Some?
    ensures f.solves.Some? ==> f.score.Some?
  {
    match I64(data, 6)
    case None => Fixed(None, None, None, None, None)
    case Some(lastUpdate) =>
      match U16(data, 14)
      case None => Fixed(Some(lastUpdate), None, None, None, None)
      case Some(nickLen) =>
        var nick := Slice(data, 16, 16 + nickLen);
        var o := 16 + nickLen;
        match U32(data, o)
        case None => Fixed(Some(lastUpdate), Some(nick), None, None, None)
        case Some(numClues) =>
          match U32(data, o + 4)
          case None => Fixed(Some(lastUpdate), Some(nick), Some(numClues), None, None)
          case Some(score) =>
            match U16(data, o + 8)
            case None => Fixed(Some(lastUpdate), Some(nick), Some(numClues), Some(score), None)
            case Some(numSolves) => Fixed(Some(lastUpdate), Some(nick), Some(numClues), Some(score), Some((o + 10, numSolves)))
  }

  /** The effect of `load` on a fetched `data`, in the order the fields are read. */
  function LoadSteps(data: seq<byte>): (r: Loaded)
    ensures HeaderStop(data).Some? ==>
      r.lastUpdated.None? && r.nick.None? && r.numClues.None? && r.score.None? && r.solves == [] && !r.loaded
    ensures U32(data, 0).Some? && U32(data, 0) != Some(ProfileMagic) ==> r.outcome == Resolved && !r.loaded
    ensures U32(data, 0) == Some(ProfileMagic) && U16(data, 4).Some? && U16(data, 4) != Some(ProfileV0000) ==>
      r.outcome == Resolved && !r.loaded
    ensures r.loaded <==> r.outcome == Resolved && r.score.Some?
    ensures r.loaded ==> r.lastUpdated.Some? && r.nick.Some? && r.numClues.Some?
    // every fixed field reached by the reads is the value read; a short buffer rejects the call
    ensures HeaderStop(data).None? ==> var f := ReadFixed(data);
      r.lastUpdated == f.lastUpdated && r.nick == f.nick && r.numClues == f.numClues && r.score == f.score
    ensures r.outcome == Rejected <==>
      || HeaderStop(data) == Some(Rejected)
      || (HeaderStop(data).None? &&
          (ReadFixed(data).solves.None? ||
           !ReadRun(ReadSolve, data, ReadFixed(data).solves.value.0, ReadFixed(data).solves.value.1).complete))
    // `loaded` only after every announced solve was read
    ensures r.loaded ==> HeaderStop(data).None? && ReadFixed(data).solves.Some? && |r.solves| == ReadFixed(data).solves.value.1
  {
    match HeaderStop(data)
    case Some(outcome) => Untouched(outcome)
    case None =>
      var f := ReadFixed(data);
      match f.solves
      case None => Loaded(Rejected, f.lastUpdated, f.nick, f.numClues, f.score, [], false, 0)
      case Some((start, numSolves)) =>
        var run := ReadRun(ReadSolve, data, start, numSolves);
        Loaded(if run.complete then Resolved else Rejected, f.lastUpdated, f.nick, f.numClues, f.score,
               run.items, run.complete, run.offset)
  }

  /** The magic number and version checks of `load`. */
  method CheckHeader(data: seq<byte>) returns (stop: Option<Outcome>)
    ensures stop == HeaderStop(data)
  {
    var offset := 0;
    var magic := U32(data, offset);
    if magic.None? { return Some(Rejected); }
    if magic.value != ProfileMagic { return Some(Resolved); }
    offset := offset + 4;
    var version := U16(data, offset);
    if version.None? { return Some(Rejected); }
    offset := offset + 2;
    if version.value != ProfileV0000 { return Some(Resolved); }
    return None;
  }

  /**
   * The solve read from the values of its time and length fields, with the word starting
   * at `wordAt` and the clue at `clueAt`.
   */
  lemma ReadSolveOf(data: seq<byte>, off: nat, t: int, w: nat, c: nat, wordAt: nat, clueAt: nat)
    requires wordAt == off + 10 && clueAt == wordAt + w + 2
    requires I64(data, off) == Some(t) && U16(data, off + 8) == Some(w) && U16(data, clueAt - 2) == Some(c)
    ensures ReadSolve(data, off) ==
      Some((Solve(t, Slice(data, wordAt, wordAt + w), Slice(data, clueAt, clueAt + c)), clueAt + c))
  {
  }

  /** The solve read fails exactly at its first field read that runs past the end. */
  lemma ReadSolveFails(data: seq<byte>, off: nat)
    ensures I64(data, off).None? ==> ReadSolve(data, off).None?
    ensures U16(data, off + 8).None? ==> ReadSolve(data, off).None?
    ensures U16(data, off + 8).Some? && U16(data, off + 10 + U16(data, off + 8).value).None? ==>
      ReadSolve(data, off).None?
  {
  }

  /** One pass of the solve loop. */
  method ReadSolveAt(data: seq<byte>, offset: nat) returns (r: Option<(Solve, nat)>)
    ensures r == ReadSolve(data, offset)
  {
    ReadSolveFails(data, offset);
    var off := offset;
    var utc := I64(data, off);
    if utc.None? { return None; }
    off := off + 8;
    var wordLen := U16(data, off);
    if wordLen.None? { return None; }
    off := off + 2;
    var wordAt := off;
    var word := Slice(data, off, off + wordLen.value);
    off := off + wordLen.value;
    var clueLen := U16(data, off);
    if clueLen.None? { return None; }
    off := off + 2;
    ReadSolveOf(data, offset, utc.value, wordLen.value, clueLen.value, wordAt, off);
    var clue := Slice(data, off, off + clueLen.value);
    off := off + clueLen.value;
    r := Some((Solve(utc.value, word, clue), off));
  }

  class ProfileSession {
    var id: string
    var timestamp: int
    var nick: seq<byte>
    var numClues: int
    var score: int
    var wordsSolved: seq<Solve>
    var loaded: bool
    var lastUpdated: Option<int>

    /** A fresh session; `now` stands for `Date.now()`. */
    constructor (now: int)
      ensures timestamp == now && nick == [] && numClues == 0 && score == 0
      ensures wordsSolved == [] && !loaded && lastUpdated.None?
    {
      timestamp := now;
      nick := [];
      numClues := 0;
      score := 0;
      wordsSolved := [];
      loaded := false;
      lastUpdated := None;
    }

    /** The fixed fields of a version-1 body, each stored as soon as it is read. */
    method LoadFixed(data: seq<byte>) returns (solvesAt: Option<(nat, nat)>)
      modifies this`lastUpdated, this`nick, this`numClues, this`score
      ensures var f := ReadFixed(data);
        && lastUpdated == (if f.lastUpdated.Some? then f.lastUpdated else old(lastUpdated))
        && nick == (if f.nick.Some? then f.nick.value else old(nick))
        && numClues == (if f.numClues.Some? then f.numClues.value else old(numClues))
        && score == (if f.score.Some? then f.score.value else old(score))
        && solvesAt == f.solves
    {
      var offset := 6;
      var lastUpdate := I64(data, offset);
      if lastUpdate.None? { return None; }
      lastUpdated := lastUpdate;
      offset := offset + 8;
      var nickLen := U16(data, offset);
      if nickLen.None? { return None; }
      offset := offset + 2;
      nick := Slice(data, offset, offset + nickLen.value);
      offset := offset + nickLen.value;
      var clues := U32(data, offset);
      if clues.None? { return None; }
      numClues := clues.value;
      offset := offset + 4;
      var sc := U32(data, offset);
      if sc.None? { return None; }
      score := sc.value;
      offset := offset + 4;
      var numSolves := U16(data, offset);
      if numSolves.None? { return None; }
      offset := offset + 2;
      return Some((offset, numSolves.value));
    }

    /** The solve loop: each solve read is appended at once; a failing read stops the loop. */
    method LoadSolves(data: seq<byte>, start: nat, numSolves: nat) returns (complete: bool)
      modifies this`wordsSolved
      ensures var run := ReadRun(ReadSolve, data, start, numSolves);
        wordsSolved == old(wordsSolved) + run.items && complete == run.complete
    {
      var before := wordsSolved;
      var offset := start;
      var added: seq<Solve> := [];
      var i := 0;
      while i < numSolves
        invariant 0 <= i <= numSolves
        invariant wordsSolved == before + added
        invariant ReadRun(ReadSolve, data, start, i) == Run(added, offset, true)
      {
        var solve := ReadSolveAt(data, offset);
        ReadRunNext(ReadSolve, data, start, i, numSolves, solve);
        if solve.None? {
          return false;
        }
        added := added + [solve.value.0];
        wordsSolved := before + added;
        offset := solve.value.1;
        i := i + 1;
      }
      return true;
    }

    /**
     * `load(session)` after the fetch: `responseOk` and `data` are the response. Every
     * field is stored as soon as it is read, the solves are appended to the ones already
     * there, and `loaded` is set only once the whole body has been read.
     */
    method Load(session: string, responseOk: bool, data: seq<byte>) returns (outcome: Outcome)
      modifies this
      ensures id == session && timestamp == old(timestamp)
      ensures !responseOk ==>
        && outcome == Resolved && nick == old(nick) && numClues == old(numClues)
        && score == old(score) && wordsSolved == old(wordsSolved) && loaded == old(loaded)
        && lastUpdated == old(lastUpdated)
      ensures responseOk ==> var r := LoadSteps(data);
        && outcome == r.outcome
        && lastUpdated == (if r.lastUpdated.Some? then r.lastUpdated else old(lastUpdated))
        && nick == (if r.nick.Some? then r.nick.value else old(nick))
        && numClues == (if r.numClues.Some? then r.numClues.value else old(numClues))
        && score == (if r.score.Some? then r.score.value else old(score))
        && wordsSolved == old(wordsSolved) + r.solves
        && loaded == (old(loaded) || r.loaded)
    {
      id := session;
      if !responseOk {
        return Resolved;
      }
      var stop := CheckHeader(data);
      if stop.Some? {
        assert wordsSolved == old(wordsSolved) + [];
        return stop.value;
      }
      var solvesAt := LoadFixed(data);
      if solvesAt.None? {
        assert wordsSolved == old(wordsSolved) + [];
        return Rejected;
      }
      var complete := LoadSolves(data, solvesAt.value.0, solvesAt.value.1);
      if !complete {
        return Rejected;
      }
      loaded := true;
      return Resolved;
    }
  }

  // ---------------------------------------------------------------------------
  // The file layout, written out, and what loading it gives back

  /** The content of a profile file of version 1. */
  datatype ProfileFile = ProfileFile(lastUpdated: int, nick: seq<byte>, numClues: nat, score: nat, solves: seq<Solve>)

  /** A solve whose fields fit their on-disk widths. */
  predicate WellFormedSolve(s: Solve)
  {
    -I64Half <= s.timestamp < I64Half && |s.word| < U16Limit && |s.clue| < U16Limit
  }

  predicate WellFormed(p: ProfileFile)
  {
    && -I64Half <= p.lastUpdated < I64Half && |p.nick| < U16Limit
    && p.numClues < U32Limit && p.score < U32Limit
    && |p.solves| < U16Limit && forall s :: s in p.solves ==> WellFormedSolve(s)
  }

  function EncodeSolve(s: Solve): (r: seq<byte>)
    ensures |r| == 12 + |s.word| + |s.clue|
  {
    I64Bytes(s.timestamp) + LE16(|s.word|) + s.word + LE16(|s.clue|) + s.clue
  }

  /** The 26 fixed bytes and the nick, before the solves. */
  function EncodeHead(p: ProfileFile): (r: seq<byte>)
    ensures |r| == 26 + |p.nick|
  {
    LE32(ProfileMagic) + LE16(ProfileV0000) + I64Bytes(p.lastUpdated) + LE16(|p.nick|) + p.nick
      + LE32(p.numClues) + LE32(p.score) + LE16(|p.solves|)
  }

  function EncodeProfile(p: ProfileFile): seq<byte>
  {
    EncodeHead(p) + Concat(EncodeSolve, p.solves)
  }

  /** The bytes of all solves: 12 fixed bytes plus the word and the clue, per solve. */
  function SolvesSize(ss: seq<Solve>): nat
  {
    if ss == [] then 0 else 12 + |ss[0].word| + |ss[0].clue| + SolvesSize(ss[1..])
  }

  lemma {:induction false} EncodeSolvesSize(ss: seq<Solve>)
    ensures |Concat(EncodeSolve, ss)| == SolvesSize(ss)
  {
    if ss != [] {
      EncodeSolvesSize(ss[1..]);
    }
  }

  // Where the fields of a solve written between `pre` and `post` sit.

  lemma SolveTimeField(pre: seq<byte>, s: Solve, post: seq<byte>)
    requires WellFormedSolve(s)
    ensures I64(pre + EncodeSolve(s) + post, |pre|) == Some(s.timestamp)
  {
    var rest := LE16(|s.word|) + s.word + LE16(|s.clue|) + s.clue + post;
    assert pre + EncodeSolve(s) + post == pre + I64Bytes(s.timestamp) + rest;
    I64At(pre, s.timestamp, rest);
  }

  lemma SolveWordFields(pre: seq<byte>, s: Solve, post: seq<byte>)
    requires WellFormedSolve(s)
    ensures var data, o, w := pre + EncodeSolve(s) + post, |pre|, |s.word|;
      U16(data, o + 8) == Some(w) && Slice(data, o + 10, o + 10 + w) == s.word
  {
    var data, p1 := pre + EncodeSolve(s) + post, pre + I64Bytes(s.timestamp);
    var rest := LE16(|s.clue|) + s.clue + post;
    assert data == p1 + LE16(|s.word|) + (s.word + rest);
    U16At(p1, |s.word|, s.word + rest);
    assert data == (p1 + LE16(|s.word|)) + s.word + rest;
    SliceAt(p1 + LE16(|s.word|), s.word, rest);
  }

  lemma SolveClueFields(pre: seq<byte>, s: Solve, post: seq<byte>)
    requires WellFormedSolve(s)
    ensures var data, o, w, c := pre + EncodeSolve(s) + post, |pre|, |s.word|, |s.clue|;
      U16(data, o + 10 + w) == Some(c) && Slice(data, o + 12 + w, o + 12 + w + c) == s.clue
  {
    var data, p2 := pre + EncodeSolve(s) + post, pre + I64Bytes(s.timestamp) + LE16(|s.word|) + s.word;
    assert data == p2 + LE16(|s.clue|) + (s.clue + post);
    U16At(p2, |s.clue|, s.clue + post);
    assert data == (p2 + LE16(|s.clue|)) + s.clue + post;
    SliceAt(p2 + LE16(|s.clue|), s.clue, post);
  }

  /** A solve written between `pre` and `post` reads back at offset |pre|, and the loop continues after it. */
  lemma ReadSolveEncoded(pre: seq<byte>, s: Solve, post: seq<byte>)
    requires WellFormedSolve(s)
    ensures ReadSolve(pre + EncodeSolve(s) + post, |pre|) == Some((s, |pre| + |EncodeSolve(s)|))
  {
    SolveTimeField(pre, s, post);
    SolveWordFields(pre, s, post);
    SolveClueFields(pre, s, post);
  }

  /** Every well-formed solve reads back, wherever it is written. */
  lemma SolvesReadBack(ss: seq<Solve>)
    requires forall s :: s in ss ==> WellFormedSolve(s)
    ensures forall x, p: seq<byte>, q: seq<byte> :: x in ss ==> ReadSolve(p + EncodeSolve(x) + q, |p|) == Some((x, |p| + |EncodeSolve(x)|))
  {
    forall x, p: seq<byte>, q: seq<byte> | x in ss
      ensures ReadSolve(p + EncodeSolve(x) + q, |p|) == Some((x, |p| + |EncodeSolve(x)|))
    {
      ReadSolveEncoded(p, x, q);
    }
  }

  /** A written profile passes the magic number and version checks. */
  lemma HeaderEncoded(p: ProfileFile, post: seq<byte>)
    ensures HeaderStop(EncodeHead(p) + post) == None
  {
    var data := EncodeHead(p) + post;
    var magic, version := LE32(ProfileMagic), LE16(ProfileV0000);
    var rest := I64Bytes(p.lastUpdated) + LE16(|p.nick|) + p.nick + LE32(p.numClues) + LE32(p.score)
      + LE16(|p.solves|) + post;
    assert data == [] + magic + (version + rest);
    U32At([], ProfileMagic, version + rest);
    assert data == magic + version + rest;
    U16At(magic, ProfileV0000, rest);
  }

  /** The time of the last update, the nick length and the nick of a written profile. */
  lemma NickEncoded(p: ProfileFile, post: seq<byte>)
    requires WellFormed(p)
    ensures var data, n := EncodeHead(p) + post, |p.nick|;
      && I64(data, 6) == Some(p.lastUpdated) && U16(data, 14) == Some(n)
      && Slice(data, 16, 16 + n) == p.nick
  {
    var data := EncodeHead(p) + post;
    var a := LE32(ProfileMagic) + LE16(ProfileV0000);
    var rest := LE32(p.numClues) + LE32(p.score) + LE16(|p.solves|) + post;
    assert data == a + I64Bytes(p.lastUpdated) + (LE16(|p.nick|) + p.nick + rest);
    I64At(a, p.lastUpdated, LE16(|p.nick|) + p.nick + rest);
    var b := a + I64Bytes(p.lastUpdated);
    assert data == b + LE16(|p.nick|) + (p.nick + rest);
    U16At(b, |p.nick|, p.nick + rest);
    assert data == (b + LE16(|p.nick|)) + p.nick + rest;
    SliceAt(b + LE16(|p.nick|), p.nick, rest);
  }

  /** The number of clues, the score and the number of solves of a written profile. */
  lemma CountsEncoded(p: ProfileFile, post: seq<byte>)
    requires WellFormed(p)
    ensures var data, o := EncodeHead(p) + post, 16 + |p.nick|;
      && U32(data, o) == Some(p.numClues) && U32(data, o + 4) == Some(p.score)
      && U16(data, o + 8) == Some(|p.solves|)
  {
    var data := EncodeHead(p) + post;
    var d := LE32(ProfileMagic) + LE16(ProfileV0000) + I64Bytes(p.lastUpdated) + LE16(|p.nick|) + p.nick;
    assert data == d + LE32(p.numClues) + (LE32(p.score) + LE16(|p.solves|) + post);
    U32At(d, p.numClues, LE32(p.score) + LE16(|p.solves|) + post);
    assert data == (d + LE32(p.numClues)) + LE32(p.score) + (LE16(|p.solves|) + post);
    U32At(d + LE32(p.numClues), p.score, LE16(|p.solves|) + post);
    assert data == (d + LE32(p.numClues) + LE32(p.score)) + LE16(|p.solves|) + post;
    U16At(d + LE32(p.numClues) + LE32(p.score), |p.solves|, post);
  }

  /**
   * Round trip: loading a written profile sets the time of the last update, the nick, the
   * number of clues and the score to the values written, appends every solve in file
   * order, marks the session loaded, and stops after 26 + nick length + the sum of
   * 12 + word length + clue length over the solves.
   */
  lemma LoadEncoded(p: ProfileFile)
    requires WellFormed(p)
    ensures LoadSteps(EncodeProfile(p)) == Loaded(Resolved, Some(p.lastUpdated), Some(p.nick),
      Some(p.numClues), Some(p.score), p.solves, true, |EncodeProfile(p)|)
    ensures |EncodeProfile(p)| == 26 + |p.nick| + SolvesSize(p.solves)
  {
    var head, solves := EncodeHead(p), Concat(EncodeSolve, p.solves);
    HeaderEncoded(p, solves);
    NickEncoded(p, solves);
    CountsEncoded(p, solves);
    assert ReadFixed(EncodeProfile(p)) == Fixed(Some(p.lastUpdated), Some(p.nick), Some(p.numClues),
      Some(p.score), Some((|head|, |p.solves|)));
    EncodeSolvesSize(p.solves);
    SolvesReadBack(p.solves);
    assert EncodeProfile(p) == head + solves + [];
    ReadRunConcat(ReadSolve, EncodeSolve, head, p.solves, []);
  }

  /**
   * The clue of a solve is sliced without a bounds check: a buffer that ends inside the clue
   * still yields the solve, with the clue cut short, and the offset moves past the end of the
   * buffer to where the whole clue would have ended.
   */
  lemma ReadSolveCut(d: seq<byte>, o: nat, m: nat, t: int, word: seq<byte>, clue: seq<byte>)
    requires var w, c := |word|, |clue|;
      && I64(d, o) == Some(t)
      && U16(d, o + 8) == Some(w) && Slice(d, o + 10, o + 10 + w) == word
      && U16(d, o + 10 + w) == Some(c) && Slice(d, o + 12 + w, o + 12 + w + c) == clue
      && o + 12 + w <= m < o + 12 + w + c <= |d|
    ensures ReadSolve(d[..m], o) == Some((Solve(t, word, clue[..m - o - 12 - |word|]), o + 12 + |word| + |clue|))
  {
    var w, c := |word|, |clue|;
    I64Prefix(d, m, o);
    U16Prefix(d, m, o + 8);
    SlicePrefix(d, m, o + 10, o + 10 + w);
    U16Prefix(d, m, o + 10 + w);
    SliceCut(d, m, o + 12 + w, o + 12 + w + c);
  }

  /**
   * A written profile cut anywhere before its first solve rejects the call: some read of the
   * header or of the fixed fields runs past the end, so no solve is read and `loaded` stays false.
   */
  lemma LoadCutInHead(p: ProfileFile, cut: nat)
    requires WellFormed(p) && cut < 26 + |p.nick|
    ensures var r := LoadSteps(EncodeProfile(p)[..cut]);
      r.outcome == Rejected && r.solves == [] && !r.loaded
  {
    var solves := Concat(EncodeSolve, p.solves);
    var d := EncodeHead(p) + solves;
    var h := d[..cut];
    var o := 16 + |p.nick|;
    HeaderEncoded(p, solves);
    NickEncoded(p, solves);
    CountsEncoded(p, solves);
    U32Prefix(d, cut, 0);
    U16Prefix(d, cut, 4);
    if HeaderStop(h).None? {
      I64Prefix(d, cut, 6);
      U16Prefix(d, cut, 14);
      U32Prefix(d, cut, o);
      U32Prefix(d, cut, o + 4);
      U16Prefix(d, cut, o + 8);
      assert ReadFixed(h).solves.None?;
    }
  }
}
