/** The audit timeline: an append-only file of lines that is read backwards, block by block, and
    cut to its newest lines when it grows too large. */
module ReverseLines {
  import opened Basics
  import opened Sequences

  type Bytes = seq<bv8>

  const NEWLINE: bv8 := 10
  const MAX_SIZE := 5 * 1024 * 1024

  datatype Event = Event(job: string, text: string)

  /** The text of the non-empty lines, oldest first; decode repairs what is not proper text. */
  function Texts(decode: Bytes -> Bytes, lines: seq<Bytes>): seq<Bytes> {
    Flat(TextOf(decode), lines)
  }

  function TextOf(decode: Bytes -> Bytes): Bytes -> seq<Bytes> {
    (line: Bytes) => if line == [] then [] else [decode(line)]
  }

  /** What reading a file backwards promises, whatever the block size. */
  function NewestFirst(decode: Bytes -> Bytes, file: Bytes): seq<Bytes> {
    Reversed(Texts(decode, Split(file, NEWLINE)))
  }

  /** Decoding with replacement: it neither empties a line nor breaks it, and does nothing twice. */
  ghost predicate Decodes(decode: Bytes -> Bytes) {
    forall line: Bytes :: decode(decode(line)) == decode(line)
        && (line != [] && NEWLINE !in line ==> decode(line) != [] && NEWLINE !in decode(line))
  }

  // ----- Splitting in blocks -----

  lemma TextsConcat(decode: Bytes -> Bytes, a: seq<Bytes>, b: seq<Bytes>)
    ensures Texts(decode, a + b) == Texts(decode, a) + Texts(decode, b)
  {
    FlatConcat(TextOf(decode), a, b);
  }

  /** Only the first piece of what is behind depends on what is before. */
  lemma {:induction false} SplitBehind<T>(before: seq<T>, behind: seq<T>, sep: T)
    ensures Split(before + behind, sep) == Split(before + Split(behind, sep)[0], sep) + Split(behind, sep)[1..]
  {
    var pieces := Split(behind, sep);
    if before == [] {
      assert before + behind == behind && before + pieces[0] == pieces[0];
      SplitNone(pieces[0], sep);
    } else {
      SplitBehind(before[1..], behind, sep);
      assert (before + behind)[0] == before[0] && (before + behind)[1..] == before[1..] + behind;
      assert (before + pieces[0])[0] == before[0] && (before + pieces[0])[1..] == before[1..] + pieces[0];
      PrefixedConcat(before[0], Split(before[1..] + pieces[0], sep), pieces[1..], sep);
    }
  }

  /** One block further: the lines behind its first piece are final. */
  lemma BlockStep(decode: Bytes -> Bytes, before: Bytes, data: Bytes)
    ensures var parts := Split(data, NEWLINE);
            NewestFirst(decode, before + data) ==
                Reversed(Texts(decode, parts[1..])) + NewestFirst(decode, before + parts[0])
  {
    var parts := Split(data, NEWLINE);
    SplitBehind(before, data, NEWLINE);
    TextsConcat(decode, Split(before + parts[0], NEWLINE), parts[1..]);
    ReversedConcat(Texts(decode, Split(before + parts[0], NEWLINE)), Texts(decode, parts[1..]));
  }

  /** What was found and what is still to be found make the whole, one block further. */
  lemma ReadStep(decode: Bytes -> Bytes, file: Bytes, start: nat, end: nat, kept: Bytes, lines: seq<Bytes>,
      data: Bytes, found: seq<Bytes>)
    requires start <= end <= |file| && data == file[start..end] + kept
    requires lines + NewestFirst(decode, file[..end] + kept) == NewestFirst(decode, file)
    requires found == Reversed(Texts(decode, Split(data, NEWLINE)[1..]))
    ensures (lines + found) + NewestFirst(decode, file[..start] + Split(data, NEWLINE)[0]) == NewestFirst(decode, file)
  {
    var rest := NewestFirst(decode, file[..start] + Split(data, NEWLINE)[0]);
    assert file[..end] + kept == file[..start] + data;
    assert NewestFirst(decode, file[..start] + data) == found + rest by { BlockStep(decode, file[..start], data); }
    Assoc(lines, found, rest);
  }

  lemma LastPiece(decode: Bytes -> Bytes, rest: Bytes)
    requires NEWLINE !in rest
    ensures NewestFirst(decode, rest) == if rest == [] then [] else [decode(rest)]
  {
    SplitNone(rest, NEWLINE);
    FlatOne(TextOf(decode), rest);
  }

  /** The lines of one block behind its first piece, last one first. */
  method LinesOfBlock(decode: Bytes -> Bytes, parts: seq<Bytes>) returns (lines: seq<Bytes>)
    requires parts != []
    ensures lines == Reversed(Texts(decode, parts[1..]))
  {
    lines := [];
    var k := |parts|;
    while k > 1
      invariant 1 <= k <= |parts|
      invariant lines == Reversed(Texts(decode, parts[k..]))
    {
      k := k - 1;
      if parts[k] != [] { lines := lines + [decode(parts[k])]; }
      ghost var rest := parts[k+1..];
      assert parts[k..] == [parts[k]] + rest && parts[k..][1..] == rest;
      if parts[k] != [] {
        ReversedConcat([decode(parts[k])], Texts(decode, rest));
        assert Reversed([decode(parts[k])]) == [decode(parts[k])];
      } else {
        assert Texts(decode, parts[k..]) == Texts(decode, rest);
      }
    }
  }

  /** goodReads is the number of block reads that succeed before the file system fails. */
  method ReverseFileLines(decode: Bytes -> Bytes, file: Bytes, blockSize: int, goodReads: nat)
      returns (lines: seq<Bytes>)
    ensures lines <= NewestFirst(decode, file)
    ensures goodReads >= |file| ==> lines == NewestFirst(decode, file)
    ensures goodReads == 0 && file != [] ==> lines == []
  {
    lines := [];
    var position, remainder, done := |file|, [], 0;
    assert file[..position] + remainder == file;
    while position > 0
      invariant 0 <= position <= |file| && NEWLINE !in remainder
      invariant position + done <= |file|
      invariant 0 <= done <= goodReads && (done == 0 ==> lines == [] && position == |file|)
      invariant lines + NewestFirst(decode, file[..position] + remainder) == NewestFirst(decode, file)
      decreases position
    {
      if done >= goodReads { return; }
      var size := if blockSize < 1024 then 1024 else blockSize;
      if position < size { size := position; }
      ghost var end, kept := position, remainder;
      position := position - size;
      var data := file[position..position + size] + remainder;
      var parts := Split(data, NEWLINE);
      remainder := parts[0];
      var found := LinesOfBlock(decode, parts);
      ReadStep(decode, file, position, end, kept, lines, data, found);
      lines := lines + found;
      done := done + 1;
    }
    assert file[..position] + remainder == remainder;
    LastPiece(decode, remainder);
    if remainder != [] { lines := lines + [decode(remainder)]; }
  }

  // ----- Writing lines back -----

  /** What compaction writes. */
  function Written(lines: seq<Bytes>): Bytes {
    Join(lines, NEWLINE) + if lines == [] then [] else [NEWLINE]
  }

  /** One line of proper text. */
  predicate Proper(decode: Bytes -> Bytes, line: Bytes) {
    line != [] && NEWLINE !in line && decode(line) == line
  }

  lemma {:induction false} TextsOfTexts(decode: Bytes -> Bytes, lines: seq<Bytes>)
    requires Decodes(decode) && forall line <- lines :: NEWLINE !in line
    ensures forall text <- Texts(decode, lines) :: Proper(decode, text)
  {
    if lines != [] { TextsOfTexts(decode, lines[1..]); }
  }

  lemma {:induction false} TextsSame(decode: Bytes -> Bytes, texts: seq<Bytes>)
    requires forall text <- texts :: Proper(decode, text)
    ensures Texts(decode, texts) == texts
  {
    if texts != [] {
      assert Proper(decode, texts[0]);
      TextsSame(decode, texts[1..]);
    }
  }

  lemma WrittenSplit(lines: seq<Bytes>)
    requires lines != [] && forall line <- lines :: NEWLINE !in line
    ensures Split(Written(lines), NEWLINE) == lines + [[]]
  {
    SplitJoin(lines, NEWLINE);
    SplitAt(Join(lines, NEWLINE), NEWLINE, []);
    assert Join(lines, NEWLINE) + [NEWLINE] + [] == Written(lines);
  }

  /** An empty piece at the end adds no line. */
  lemma EmptyEnd(decode: Bytes -> Bytes, pieces: seq<Bytes>)
    ensures Texts(decode, pieces + [[]]) == Texts(decode, pieces)
  {
    TextsConcat(decode, pieces, [[]]);
    FlatOne(TextOf(decode), []);
  }

  /** Text lines that are written come back the same, newest first. */
  lemma WrittenReads(decode: Bytes -> Bytes, lines: seq<Bytes>)
    requires forall line <- lines :: Proper(decode, line)
    ensures NewestFirst(decode, Written(lines)) == Reversed(lines)
  {
    if lines == [] {
      LastPiece(decode, []);
    } else {
      assert forall line <- lines :: Proper(decode, line) ==> NEWLINE !in line;
      WrittenSplit(lines);
      EmptyEnd(decode, lines);
      TextsSame(decode, lines);
    }
  }

  function Take<T>(s: seq<T>, n: nat): seq<T> {
    if n < |s| then s[..n] else s
  }

  /** What compaction leaves of a file. */
  function Compacted(decode: Bytes -> Bytes, file: Bytes, limit: nat): Bytes {
    Written(Reversed(Take(NewestFirst(decode, file), limit)))
  }

  /** Compaction keeps the newest lines, all of them unchanged and in order. */
  lemma CompactionKeepsNewest(decode: Bytes -> Bytes, file: Bytes, limit: nat)
    requires Decodes(decode)
    ensures NewestFirst(decode, Compacted(decode, file, limit)) == Take(NewestFirst(decode, file), limit)
  {
    PrefixReads(decode, file, NewestFirst(decode, file), limit);
  }

  /** A file of complete lines splits into them and an empty end. */
  lemma AppendedSplit(file: Bytes, line: Bytes) returns (pieces: seq<Bytes>)
    requires Complete(file) && NEWLINE !in line
    ensures Split(file, NEWLINE) == pieces + [[]]
    ensures Split(file + line + [NEWLINE], NEWLINE) == pieces + [line] + [[]]
  {
    SplitNone(line, NEWLINE);
    SplitAt(line, NEWLINE, []);
    assert line + [NEWLINE] + [] == line + [NEWLINE];
    if file == [] {
      pieces := [];
      assert file + line + [NEWLINE] == line + [NEWLINE];
    } else {
      var body := file[..|file| - 1];
      pieces := Split(body, NEWLINE);
      SplitAt(body, NEWLINE, line + [NEWLINE]);
      SplitAt(body, NEWLINE, []);
      assert body + [NEWLINE] + (line + [NEWLINE]) == file + line + [NEWLINE];
      assert body + [NEWLINE] + [] == file;
    }
  }

  /** Writing back the newest of the lines that could be read. */
  lemma PrefixReads(decode: Bytes -> Bytes, file: Bytes, found: seq<Bytes>, limit: nat)
    requires Decodes(decode) && found <= NewestFirst(decode, file)
    ensures NewestFirst(decode, Written(Reversed(Take(found, limit)))) == Take(found, limit)
  {
    var all := Texts(decode, Split(file, NEWLINE));
    var kept := Take(found, limit);
    TextsOfTexts(decode, Split(file, NEWLINE));
    forall line <- Reversed(kept) ensures Proper(decode, line) {
      ReversedMember(kept, line);
      assert line in Reversed(all);
      ReversedMember(all, line);
    }
    WrittenReads(decode, Reversed(kept));
    ReversedTwice(kept);
  }

  /** A line that is appended to complete lines is the newest one. */
  lemma AppendedIsNewest(decode: Bytes -> Bytes, file: Bytes, line: Bytes)
    requires Complete(file) && Proper(decode, line)
    ensures NewestFirst(decode, file + line + [NEWLINE]) == [line] + NewestFirst(decode, file)
  {
    var pieces := AppendedSplit(file, line);
    EmptyEnd(decode, pieces);
    EmptyEnd(decode, pieces + [line]);
    TextsConcat(decode, pieces, [line]);
    FlatOne(TextOf(decode), line);
    ReversedConcat(Texts(decode, pieces), [line]);
    assert Reversed([line]) == [line];
  }

  /** Every line is ended. */
  predicate Complete(file: Bytes) {
    file != [] ==> file[|file| - 1] == NEWLINE
  }

  // ----- Recent events -----

  /** The event of a line, if it parses and belongs to the job asked for. */
  function HitOf(parse: Bytes -> Option<Event>, job: string): Bytes -> seq<Event> {
    (line: Bytes) =>
      match parse(line)
      case None => []
      case Some(event) => if job != "" && event.job != job then [] else [event]
  }

  function Matching(parse: Bytes -> Option<Event>, lines: seq<Bytes>, job: string): seq<Event> {
    Flat(HitOf(parse, job), lines)
  }

  /** The event of a line, which has to parse and, if a job is asked for, to belong to it. */
  predicate Hits(parse: Bytes -> Option<Event>, job: string, line: Bytes, event: Event) {
    parse(line) == Some(event) && (job == "" || event.job == job)
  }

  /** Line by line, the matching events are those of the lines that parse and belong to the job. */
  lemma MatchingNext(parse: Bytes -> Option<Event>, lines: seq<Bytes>, line: Bytes, job: string)
    ensures Matching(parse, [], job) == []
    ensures Matching(parse, lines + [line], job) ==
            if parse(line).Some? && Hits(parse, job, line, parse(line).value)
            then Matching(parse, lines, job) + [parse(line).value]
            else Matching(parse, lines, job)
  {
    MatchingConcat(parse, lines, [line], job);
    FlatOne(HitOf(parse, job), line);
  }

  lemma {:induction false} MatchingHits(parse: Bytes -> Option<Event>, lines: seq<Bytes>, job: string)
    ensures forall event <- Matching(parse, lines, job) :: exists line <- lines :: Hits(parse, job, line, event)
  {
    if lines != [] {
      var front, last := lines[..|lines|-1], lines[|lines|-1];
      MatchingHits(parse, front, job);
      assert lines == front + [last];
      MatchingNext(parse, front, last, job);
      forall event <- Matching(parse, lines, job) ensures exists line <- lines :: Hits(parse, job, line, event) {
        if event in Matching(parse, front, job) {
          var line :| line in front && Hits(parse, job, line, event);
          assert line in lines;
        } else {
          assert Hits(parse, job, last, event) && last in lines;
        }
      }
    }
  }

  /** A limit below one still yields one event, since it is looked at after an event was taken. */
  function Asked(limit: int): nat {
    if limit < 1 then 1 else limit
  }

  lemma MatchingFrom(parse: Bytes -> Option<Event>, lines: seq<Bytes>, i: nat, job: string)
    requires i < |lines|
    ensures Matching(parse, lines[i..], job) == HitOf(parse, job)(lines[i]) + Matching(parse, lines[i+1..], job)
  {
    assert lines[i..][0] == lines[i] && lines[i..][1..] == lines[i+1..];
  }

  method Recent(parse: Bytes -> Option<Event>, lines: seq<Bytes>, limit: int, job: string) returns (events: seq<Event>)
    ensures events == Take(Matching(parse, lines, job), if limit < 1 then 1 else limit)
    ensures forall event <- events :: exists line <- lines :: Hits(parse, job, line, event)
  {
    MatchingHits(parse, lines, job);
    events := [];
    for i := 0 to |lines|
      invariant |events| < Asked(limit)
      invariant Matching(parse, lines, job) == events + Matching(parse, lines[i..], job)
    {
      ghost var rest := Matching(parse, lines[i+1..], job);
      MatchingFrom(parse, lines, i, job);
      Assoc(events, HitOf(parse, job)(lines[i]), rest);
      var parsed := parse(lines[i]);
      if parsed.None? { continue; }
      if job != "" && parsed.value.job != job { continue; }
      events := events + [parsed.value];
      if |events| >= limit {
        assert forall event <- events :: event in events + rest;
        return;
      }
    }
  }

  lemma MatchingConcat(parse: Bytes -> Option<Event>, a: seq<Bytes>, b: seq<Bytes>, job: string)
    ensures Matching(parse, a + b, job) == Matching(parse, a, job) + Matching(parse, b, job)
  {
    FlatConcat(HitOf(parse, job), a, b);
  }

  lemma TakeOfPrefix<T>(kept: seq<T>, dropped: seq<T>, n: nat)
    ensures Take(kept, n) <= Take(kept + dropped, n)
    ensures Take(kept, n) == Take(kept + dropped, n) <==> |Take(kept, n)| == n || dropped == []
  {
  }

  /** The recent events after a compaction are the newest of those before it, and fewer only when
      compaction dropped an event that was asked for. */
  lemma RecentAfterCompaction(decode: Bytes -> Bytes, parse: Bytes -> Option<Event>, file: Bytes, keep: nat,
      limit: int, job: string)
    requires Decodes(decode)
    ensures var lines := NewestFirst(decode, file);
            var before := Take(Matching(parse, lines, job), Asked(limit));
            var after := Take(Matching(parse, NewestFirst(decode, Compacted(decode, file, keep)), job), Asked(limit));
            && after <= before
            && (after == before <==>
               |after| == Asked(limit) || Matching(parse, lines[|Take(lines, keep)|..], job) == [])
  {
    var lines := NewestFirst(decode, file);
    var kept := Take(lines, keep);
    CompactionKeepsNewest(decode, file, keep);
    assert lines == kept + lines[|kept|..];
    MatchingConcat(parse, kept, lines[|kept|..], job);
    TakeOfPrefix(Matching(parse, kept, job), Matching(parse, lines[|kept|..], job), Asked(limit));
  }

  // ----- The timeline -----

  class AuditTimeline {
    const limit: nat
    var file: Bytes

    ghost predicate Valid()
      reads this
    {
      limit >= 100 && Complete(file)
    }

    constructor (limit: int)
      ensures Valid() && file == [] && (limit >= 100 ==> this.limit == limit)
    {
      this.limit := if limit < 100 then 100 else limit;
      file := [];
    }

    /** The lines of the file, newest first. */
    ghost function History(decode: Bytes -> Bytes): seq<Bytes>
      reads this
    {
      NewestFirst(decode, file)
    }

    /** A read that fails half-way silently ends the history: the events found are the newest of those
        that a complete read would give. */
    method RecentEvents(decode: Bytes -> Bytes, parse: Bytes -> Option<Event>, limit: int, job: string, goodReads: nat)
      returns (events: seq<Event>)
      ensures events <= Take(Matching(parse, History(decode), job), Asked(limit))
      ensures forall event <- events :: job == "" || event.job == job
      ensures goodReads >= |file| ==> events == Take(Matching(parse, History(decode), job), Asked(limit))
    {
      var lines := ReverseFileLines(decode, file, 64 * 1024, goodReads);
      events := Recent(parse, lines, limit, job);
      var rest := History(decode)[|lines|..];
      assert History(decode) == lines + rest;
      MatchingConcat(parse, lines, rest, job);
      TakeOfPrefix(Matching(parse, lines, job), Matching(parse, rest, job), Asked(limit));
    }

    /** found holds the lines that could be read. Compaction replaces the file by the newest of those, so
        it loses lines it should keep if and only if reading failed before the limit was reached. */
    method Compact(decode: Bytes -> Bytes, blockSize: int, goodReads: nat) returns (ghost found: seq<Bytes>)
      requires Valid() && Decodes(decode)
      modifies this
      ensures Valid() && found <= old(History(decode)) && History(decode) == Take(found, limit)
      ensures goodReads >= |old(file)| ==> found == old(History(decode))
      ensures goodReads == 0 && old(file) != [] ==> found == []
      ensures History(decode) == Take(old(History(decode)), limit) <==>
              |found| >= limit || found == old(History(decode))
      ensures found == old(History(decode)) ==> file == Compacted(decode, old(file), limit)
    {
      var all := ReverseFileLines(decode, file, blockSize, goodReads);
      found := all;
      var lines := [];
      for i := 0 to |all|
        invariant lines == all[..i] && i < limit
      {
        lines := lines + [all[i]];
        if |lines| >= limit { break; }
      }
      assert lines == Take(all, limit);
      PrefixReads(decode, file, found, limit);
      TakeOfFound(found, History(decode), limit);
      file := Written(Reversed(lines));
    }

    static lemma TakeOfFound(found: seq<Bytes>, history: seq<Bytes>, limit: nat)
      requires found <= history
      ensures Take(found, limit) == Take(history, limit) <==> |found| >= limit || found == history
    {
      assert history == found + history[|found|..];
      TakeOfPrefix(found, history[|found|..], limit);
      assert |Take(found, limit)| == limit <==> |found| >= limit;
    }

    /** line is the event as one line of proper text. Within the size limit it becomes the newest line; a
        failed read during compaction can lose even that. */
    method Record(decode: Bytes -> Bytes, line: Bytes, blockSize: int, goodReads: nat) returns (ghost found: seq<Bytes>)
      requires Valid() && Decodes(decode) && Proper(decode, line)
      modifies this
      ensures Valid() && found <= [line] + old(History(decode))
      ensures var all, large := [line] + old(History(decode)), |old(file)| + |line| + 1 > 5242880;
              && History(decode) == (if large then Take(found, limit) else all)
              && (!large || goodReads >= |old(file)| + |line| + 1 ==> found == all)
              && (large && goodReads == 0 ==> History(decode) == [])
    {
      AppendedIsNewest(decode, file, line);
      file := file + line + [NEWLINE];
      found := History(decode);
      if |file| > MAX_SIZE { found := Compact(decode, blockSize, goodReads); }
    }
  }
}
