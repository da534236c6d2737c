/** trpr's FastReader: buffered reading with push-back of partial lines on a timeout. */
module LineReading {

  const BUFSIZE: nat := 2048

  /** What one attempt to get more input yields; an exhausted schedule is the end of the file. */
  datatype Event = Chunk(data: string) | Timeout | Interrupted | Broken

  datatype Result = OK | ERROR_ | DONE | TIMEOUT

  /** isprint, or one of the three control characters the reader lets through. */
  predicate IsText(c: char) {
    ' ' <= c <= '~' || c == '\t' || c == '\n' || c == '\r'
  }

  /** By character codes: 32 to 126, and 9, 10 and 13. Of these 10 and 13 end a line. */
  lemma TextByCode(c: char)
    ensures IsText(c) <==> 32 <= c as int <= 126 || c as int in {9, 10, 13}
    ensures IsEol(c) <==> c as int in {10, 13}
  {
  }

  predicate IsEol(c: char) {
    c == '\n' || c == '\r'
  }

  /** Chunks whose first byte is not text are skipped whole. */
  predicate Skipped(e: Event) {
    e.Chunk? && e.data != [] && !IsText(e.data[0])
  }

  predicate WellSized(e: Event) {
    e.Chunk? ==> 0 < |e.data| <= BUFSIZE
  }

  ghost predicate AllSized(events: seq<Event>) {
    forall e :: e in events ==> WellSized(e)
  }

  /** What is left of a schedule: no longer, and nothing worse than before. */
  ghost predicate LeftOf(rest: seq<Event>, events: seq<Event>) {
    |rest| <= |events| && (AllSized(events) ==> AllSized(rest)) && (Broken in rest ==> Broken in events)
  }

  /** The bytes the reader will deliver, and the bytes the file holds. */
  function Text(events: seq<Event>): string {
    if events == [] then []
    else (if events[0].Chunk? && !Skipped(events[0]) then events[0].data else []) + Text(events[1..])
  }

  function Whole(events: seq<Event>): string {
    if events == [] then []
    else (if events[0].Chunk? then events[0].data else []) + Whole(events[1..])
  }

  /** Nothing is lost exactly when every chunk starts with a text byte. */
  lemma {:induction false} LostIffSkipped(events: seq<Event>)
    ensures |Text(events)| <= |Whole(events)|
    ensures Text(events) == Whole(events) <==> forall e :: e in events ==> !Skipped(e)
  {
    if events != [] {
      LostIffSkipped(events[1..]);
      assert events == [events[0]] + events[1..];
      var head := if events[0].Chunk? then events[0].data else [];
      if Skipped(events[0]) {
        assert events[0] in events && |Text(events)| < |Whole(events)|;
      } else {
        assert Text(events) == head + Text(events[1..]) && Whole(events) == head + Whole(events[1..]);
        assert Text(events)[|head|..] == Text(events[1..]) && Whole(events)[|head|..] == Whole(events[1..]);
        assert forall e :: e in events <==> e == events[0] || e in events[1..];
      }
    }
  }

  /** A file whose one line starts with a byte that is not text: Readline finds no line in it. */
  lemma SkippedLineIsLost()
    ensures var file := [Chunk(['\0', 'a', '\n'])];
            AllSized(file) && Lines(Text(file)) == [] && Lines(Whole(file)) == [['\0', 'a']]
  {
    var file := [Chunk(['\0', 'a', '\n'])];
    assert file[1..] == [];
    assert Text(file) == [] && Whole(file) == ['\0', 'a'] + ['\n'] + [];
    NoLines([]);
    FirstLine(Whole(file), ['\0', 'a'], '\n', []);
  }

  /** Nor is an unterminated line one, at the end of the file. */
  lemma UnterminatedLineIsLost()
    ensures var file := [Chunk(['a'])];
            AllSized(file) && Text(file) == Whole(file) == ['a'] && Lines(Text(file)) == []
  {
    var file := [Chunk(['a'])];
    assert file[1..] == [];
    NoLines(['a']);
  }

  ghost predicate NoEol(s: string) {
    forall k :: 0 <= k < |s| ==> !IsEol(s[k])
  }

  /** Position of the first line terminator, or the length. */
  function EolAt(s: string): (i: nat)
    ensures i <= |s| && (forall k :: 0 <= k < i ==> !IsEol(s[k])) && (i < |s| ==> IsEol(s[i]))
  {
    if s == [] || IsEol(s[0]) then 0
    else 1 + EolAt(s[1..])
  }

  /** The terminated lines of a text, without their terminators; what follows the last is no line. */
  function Lines(s: string): seq<string>
    decreases |s|
  {
    var i := EolAt(s);
    if i == |s| then [] else [s[..i]] + Lines(s[i + 1..])
  }

  lemma FirstLine(s: string, line: string, c: char, rest: string)
    requires s == line + [c] + rest && NoEol(line) && IsEol(c)
    ensures Lines(s) == [line] + Lines(rest)
  {
    assert forall k :: 0 <= k < |line| ==> s[k] == line[k];
    assert s[|line|] == c;
    assert EolAt(s) == |line|;
    assert s[..|line|] == line && s[|line| + 1..] == rest;
  }

  lemma NoLines(s: string)
    requires NoEol(s)
    ensures Lines(s) == []
  {
    assert EolAt(s) == |s|;
  }

  /** Every line, and the unterminated rest, is shorter than the caller's buffer. */
  predicate Fits(s: string, length: nat)
    decreases |s|
  {
    var i := EolAt(s);
    i < length && (i < |s| ==> Fits(s[i + 1..], length))
  }

  /** What one Readline call means for the lines of the text. */
  lemma LineRead(s: string, line: string, rest: string, length: nat)
    requires NoEol(line) && exists c :: IsEol(c) && s == line + [c] + rest
    ensures Lines(s) == [line] + Lines(rest) && |rest| < |s|
    ensures Fits(s, length) ==> Fits(rest, length)
  {
    var c :| IsEol(c) && s == line + [c] + rest;
    FirstLine(s, line, c, rest);
    assert s[|line|] == c && EolAt(s) == |line| by {
      assert forall k :: 0 <= k < |line| ==> s[k] == line[k];
    }
    assert s[|line| + 1..] == rest;
  }

  lemma TooLong(s: string, head: string, rest: string)
    requires NoEol(head) && s == head + rest
    ensures !Fits(s, |head|)
  {
    assert forall k :: 0 <= k < |head| ==> s[k] == head[k];
  }

  /** Nothing lost, nothing duplicated: what was pending was delivered or is pending still. */
  ghost predicate Conserved(before: string, delivered: string, pending: string) {
    before == delivered + pending
  }

  class InputFile {
    var events: seq<Event>

    constructor (events: seq<Event>)
      ensures this.events == events
    {
      this.events := events;
    }
  }

  class FastReader {
    var savebuf: array<char>
    var saveptr: nat
    var savecount: nat

    ghost predicate Valid()
      reads this
    {
      savebuf.Length == BUFSIZE && (savecount > 0 ==> saveptr + savecount <= BUFSIZE)
    }

    /** The bytes read ahead. */
    ghost function Saved(): string
      requires Valid()
      reads this, savebuf
    {
      if savecount > 0 then savebuf[saveptr..saveptr + savecount] else []
    }

    /** Bytes still to be delivered: saved ones first. */
    ghost function Pending(file: InputFile): string
      requires Valid()
      reads this, savebuf, file
    {
      Saved() + Text(file.events)
    }

    constructor ()
      ensures Valid() && savecount == 0 && fresh(savebuf)
    {
      savebuf := new char[BUFSIZE](_ => ' ');
      saveptr, savecount := 0, 0;
    }

    /** memcpy of `n` saved bytes into the caller's buffer. */
    method TakeSaved(buffer: array<char>, at: nat, n: nat)
      requires Valid() && buffer != savebuf && savecount > 0 && n <= savecount && at + n <= buffer.Length
      modifies buffer, this`saveptr, this`savecount
      ensures Valid() && savecount == old(savecount) - n && |old(Saved())| == old(savecount)
      ensures buffer[..at + n] == old(buffer[..at]) + old(Saved())[..n] && Saved() == old(Saved())[n..]
    {
      forall k | 0 <= k < n { buffer[at + k] := savebuf[saveptr + k]; }
      savecount, saveptr := savecount - n, saveptr + n;
    }

    /** fread into the save buffer. */
    method Fill(data: string)
      requires Valid() && 0 < |data| <= BUFSIZE
      modifies this`saveptr, this`savecount, savebuf
      ensures Valid() && saveptr == 0 && savecount == |data| && savebuf[..savecount] == data
    {
      forall k | 0 <= k < |data| { savebuf[k] := data[k]; }
      saveptr, savecount := 0, |data|;
    }

    /** One attempt at more input, with nothing saved. OK may bring nothing: the call was interrupted,
        or the chunk was skipped. */
    method Refill(file: InputFile) returns (result: Result)
      requires Valid() && savecount == 0 && AllSized(file.events)
      modifies this`saveptr, this`savecount, savebuf, file
      ensures Valid() && Pending(file) == old(Pending(file))
      ensures LeftOf(file.events, old(file.events))
      ensures result == DONE <==> old(file.events) == []
      ensures result != DONE ==> |file.events| == old(|file.events|) - 1
      ensures result == DONE ==> file.events == [] && savecount == 0
      ensures result != OK ==> savecount == 0
      ensures result == ERROR_ ==> Broken in old(file.events)
    {
      if file.events == [] {
        return DONE;
      }
      var e := file.events[0];
      assert WellSized(e);
      file.events := file.events[1..];
      match e {
        case Timeout => return TIMEOUT;
        case Broken => return ERROR_;
        case Interrupted => return OK;
        case Chunk(data) =>
          if IsText(data[0]) {
            Fill(data);
          }
          return OK;
      }
    }

    /** memcpy from what is saved, as much as is wanted, behind the bytes of the buffer from `start`. */
    method Deliver(file: InputFile, buffer: array<char>, start: nat, at: nat, want: nat) returns (n: nat)
      requires Valid() && buffer != savebuf && start <= at && at + want <= buffer.Length && savecount > 0
      modifies buffer, this`saveptr, this`savecount
      ensures Valid() && n == (if want < old(savecount) then want else old(savecount))
      ensures n < want ==> savecount == 0
      ensures buffer[..start] == old(buffer[..start])
      ensures old(buffer[start..at] + Pending(file)) == buffer[start..at + n] + Pending(file)
    {
      n := if want < savecount then want else savecount;
      PendingIs(file);
      ghost var front, saved := buffer[..at], Saved();
      hide *;
      TakeSaved(buffer, at, n);
      PendingIs(file);
      Moved(front, start, saved, n, Text(file.events));
      assert front[..start] == old(buffer[..start]) && front[start..] == old(buffer[start..at]);
      assert buffer[..start] == buffer[..at + n][..start] && buffer[start..at + n] == buffer[..at + n][start..];
    }

    lemma PendingIs(file: InputFile)
      requires Valid()
      ensures Pending(file) == Saved() + Text(file.events)
    {
    }

    /** Bytes moved from what is saved behind what was delivered. */
    static lemma Moved(front: string, start: nat, saved: string, n: nat, text: string)
      requires start <= |front| && n <= |saved|
      ensures (front + saved[..n])[..start] == front[..start]
      ensures front[start..] + (saved + text) == (front + saved[..n])[start..] + (saved[n..] + text)
    {
    }

    /** One attempt at more input and, if it brings some, its delivery. */
    method Attempt(file: InputFile, buffer: array<char>, start: nat, at: nat, want: nat, ghost before: string)
      returns (result: Result, n: nat)
      requires Valid() && buffer != savebuf && start <= at && at + want <= buffer.Length && want > 0
      requires savecount == 0 && AllSized(file.events)
      requires Conserved(before, buffer[start..at], Pending(file))
      modifies this`saveptr, this`savecount, savebuf, buffer, file
      ensures Valid() && n <= want && (n < want ==> savecount == 0) && LeftOf(file.events, old(file.events))
      ensures buffer[..start] == old(buffer[..start])
      ensures Conserved(before, buffer[start..at + n], Pending(file))
      ensures result != DONE ==> |file.events| < old(|file.events|)
      ensures result == DONE ==> Pending(file) == []
      ensures result != OK ==> n == 0
      ensures result == ERROR_ ==> Broken in old(file.events)
    {
      hide Valid, Pending, AllSized;
      n := 0;
      result := Refill(file);
      if result == DONE {
        NothingPending(file);
      }
      if result == OK && savecount > 0 {
        n := Deliver(file, buffer, start, at, want);
      }
    }

    /** Read. `got` counts the bytes put into the buffer; the code reports it only with OK. */
    method Read(file: InputFile, buffer: array<char>, start: nat, want: nat) returns (result: Result, got: nat)
      requires Valid() && buffer != savebuf && start + want <= buffer.Length && AllSized(file.events)
      modifies this`saveptr, this`savecount, savebuf, buffer, file
      ensures Valid() && got <= want && LeftOf(file.events, old(file.events))
      ensures buffer[..start] == old(buffer[..start])
      ensures Conserved(old(Pending(file)), buffer[start..start + got], Pending(file))
      ensures result == OK ==> got == want || (got > 0 && Pending(file) == [])
      ensures result == DONE ==> got == 0 && want > 0 && Pending(file) == []
      ensures result == TIMEOUT ==> got < want && savecount == 0 && |file.events| < old(|file.events|)
      ensures result == ERROR_ ==> got < want && Broken in old(file.events)
    {
      got := 0;
      assert buffer[start..start] + Pending(file) == Pending(file);
      ghost var before := Pending(file);
      hide Valid, Pending, AllSized, Text;
      if savecount > 0 {
        got := Deliver(file, buffer, start, start, want);
      }
      result, got := ReadMore(file, buffer, start, got, want, before);
    }

    /** The refill loop of Read, with `had` bytes in the buffer already. */
    method ReadMore(file: InputFile, buffer: array<char>, start: nat, had: nat, want: nat, ghost before: string)
      returns (result: Result, got: nat)
      requires Valid() && buffer != savebuf && start + want <= buffer.Length && AllSized(file.events)
      requires had <= want && (had < want ==> savecount == 0)
      requires Conserved(before, buffer[start..start + had], Pending(file))
      modifies this`saveptr, this`savecount, savebuf, buffer, file
      ensures Valid() && had <= got <= want && LeftOf(file.events, old(file.events))
      ensures buffer[..start] == old(buffer[..start])
      ensures Conserved(before, buffer[start..start + got], Pending(file))
      ensures result == OK ==> got == want || (got > 0 && Pending(file) == [])
      ensures result == DONE ==> got == 0 && want > 0 && Pending(file) == []
      ensures result == TIMEOUT ==> got < want && savecount == 0 && |file.events| < old(|file.events|)
      ensures result == ERROR_ ==> got < want && Broken in old(file.events)
    {
      hide Valid, Pending, AllSized, Text, Conserved;
      got := had;
      while got < want
        invariant Valid() && had <= got <= want && (got < want ==> savecount == 0)
        invariant LeftOf(file.events, old(file.events))
        invariant buffer[..start] == old(buffer[..start])
        invariant Conserved(before, buffer[start..start + got], Pending(file))
        decreases |file.events|
      {
        var more, n := Attempt(file, buffer, start, start + got, want - got, before);
        if more == DONE {
          return if got > 0 then OK else DONE, got;
        }
        if more != OK {
          return more, got;
        }
        got := got + n;
      }
      return OK, got;
    }

    lemma NothingPending(file: InputFile)
      requires Valid() && savecount == 0 && file.events == []
      ensures Pending(file) == []
    {
    }

    /** On a timeout the partial line goes back to the save buffer; only what does not fit there stays
        delivered. Returns the delivered length. */
    method PushBack(file: InputFile, buffer: array<char>, count: nat) returns (delivered: nat)
      requires Valid() && buffer != savebuf && 0 < count <= buffer.Length && savecount == 0
      modifies this`saveptr, this`savecount, savebuf
      ensures Valid() && delivered == (if count < 2048 then 0 else count - 2048)
      ensures buffer[..count] + old(Pending(file)) == buffer[..delivered] + Pending(file)
    {
      PendingIs(file);
      NothingSaved();
      var n := if count < BUFSIZE then count else BUFSIZE;
      delivered := count - n;
      hide *;
      ghost var line := buffer[..count];
      Save(buffer, delivered, n);
      PendingIs(file);
      assert buffer[delivered..delivered + n] == line[delivered..] && buffer[..delivered] == line[..delivered];
      Rejoin(line, delivered, Text(file.events));
    }

    /** memcpy from the caller's buffer to the front of the save buffer. */
    method Save(buffer: array<char>, from: nat, n: nat)
      requires Valid() && buffer != savebuf && 0 < n <= BUFSIZE && from + n <= buffer.Length
      modifies this`saveptr, this`savecount, savebuf
      ensures Valid() && Saved() == buffer[from..from + n]
    {
      forall k | 0 <= k < n { savebuf[k] := buffer[from + k]; }
      saveptr, savecount := 0, n;
    }

    lemma NothingSaved()
      requires Valid() && savecount == 0
      ensures Saved() == []
    {
    }

    static lemma Rejoin(line: string, kept: nat, text: string)
      requires kept <= |line|
      ensures line + text == line[..kept] + (line[kept..] + text)
    {
    }

    /** Readline. `len` is the length of the line on OK. On TIMEOUT `kept` bytes stay delivered; on
        ERROR_ the buffer holds `kept` bytes of a line too long for it, or of a failed read. */
    method Readline(file: InputFile, buffer: array<char>, length: nat) returns (result: Result, len: nat, ghost kept: nat)
      requires Valid() && buffer != savebuf && length <= buffer.Length
      requires AllSized(file.events)
      modifies this`saveptr, this`savecount, savebuf, buffer, file
      ensures Valid() && kept <= length && len <= length
      ensures LeftOf(file.events, old(file.events))
      ensures result == OK ==> len < length && NoEol(buffer[..len])
      ensures result == OK ==> exists c :: IsEol(c) && old(Pending(file)) == buffer[..len] + [c] + Pending(file)
      ensures result == TIMEOUT ==> |file.events| < old(|file.events|) && (length <= 2048 ==> kept == 0)
      ensures result == TIMEOUT ==> old(Pending(file)) == buffer[..kept] + Pending(file)
      ensures result == DONE ==> NoEol(old(Pending(file))) && |old(Pending(file))| < length && Pending(file) == []
      ensures result == ERROR_ ==> NoEol(buffer[..kept]) && old(Pending(file)) == buffer[..kept] + Pending(file)
      ensures result == ERROR_ ==> kept == length || Broken in old(file.events)
    {
      hide Valid, Pending, AllSized, LeftOf, NoEol, IsEol;
      var count := 0;
      len, kept := length, 0;
      NoEolEmpty();
      AllLeft(file.events);
      while count < length
        invariant Valid() && count <= length && len == length && AllSized(file.events)
        invariant LeftOf(file.events, old(file.events))
        invariant old(Pending(file)) == buffer[..count] + Pending(file)
        invariant NoEol(buffer[..count])
      {
        ghost var line, left := buffer[..count], file.events;
        var result1 := ReadChar(file, buffer, count);
        StillLeft(file.events, left, old(file.events));
        match result1 {
          case OK =>
            EolChar(buffer[count]);
            assert buffer[..count + 1] == line + [buffer[count]];
            if buffer[count] == '\n' || buffer[count] == '\r' {
              ghost var c := buffer[count];
              assert old(Pending(file)) == line + [c] + Pending(file);
              buffer[count] := '\0';
              assert buffer[..count] == line;
              return OK, count, 0;
            }
            NoEolExtend(line, buffer[count]);
            count := count + 1;
          case TIMEOUT =>
            if count > 0 {
              var delivered := PushBack(file, buffer, count);
              return TIMEOUT, delivered, delivered;
            }
            return TIMEOUT, length, 0;
          case ERROR_ =>
            return ERROR_, length, count;
          case DONE =>
            assert old(Pending(file)) == line;
            return DONE, length, 0;
        }
      }
      return ERROR_, length, length;
    }

    /** Read of a single byte, as Readline uses it. */
    method ReadChar(file: InputFile, buffer: array<char>, at: nat) returns (result: Result)
      requires Valid() && buffer != savebuf && at < buffer.Length && AllSized(file.events)
      modifies this`saveptr, this`savecount, savebuf, buffer, file
      ensures Valid() && LeftOf(file.events, old(file.events)) && buffer[..at] == old(buffer[..at])
      ensures result == OK ==> old(Pending(file)) == [buffer[at]] + Pending(file)
      ensures result != OK ==> Pending(file) == old(Pending(file))
      ensures result == TIMEOUT ==> savecount == 0 && |file.events| < old(|file.events|)
      ensures result == DONE ==> Pending(file) == []
      ensures result == ERROR_ ==> Broken in old(file.events)
    {
      hide Valid, Pending, AllSized, LeftOf;
      var got;
      result, got := Read(file, buffer, at, 1);
      if result == OK {
        assert buffer[at..at + 1] == [buffer[at]];
      } else {
        assert buffer[at..at] == [];
      }
    }

    static lemma NoEolEmpty()
      ensures forall s: string :: |s| == 0 ==> NoEol(s)
    {
    }

    static lemma EolChar(c: char)
      ensures IsEol(c) <==> c == '\n' || c == '\r'
    {
    }

    static lemma NoEolExtend(s: string, c: char)
      requires NoEol(s) && !IsEol(c)
      ensures NoEol(s + [c])
    {
    }
  }

  /** One Readline of a caller, in terms of the lines still to come. */
  method NextLine(reader: FastReader, file: InputFile, buffer: array<char>, length: nat)
    returns (outcome: Result, line: string)
    requires reader.Valid() && buffer != reader.savebuf && length <= buffer.Length && length <= 2048
    requires AllSized(file.events)
    modifies reader`saveptr, reader`savecount, reader.savebuf, buffer, file
    ensures reader.Valid() && LeftOf(file.events, old(file.events))
    ensures outcome == OK ==>
              && Lines(old(reader.Pending(file))) == [line] + Lines(reader.Pending(file))
              && |reader.Pending(file)| < |old(reader.Pending(file))|
              && (Fits(old(reader.Pending(file)), length) ==> Fits(reader.Pending(file), length))
    ensures outcome == TIMEOUT ==>
              reader.Pending(file) == old(reader.Pending(file)) && |file.events| < |old(file.events)|
    ensures outcome == DONE ==> Lines(old(reader.Pending(file))) == [] && Lines(reader.Pending(file)) == []
    ensures outcome == ERROR_ ==> !Fits(old(reader.Pending(file)), length) || Broken in old(file.events)
  {
    hide *;
    ghost var before := reader.Pending(file);
    line := [];
    var len;
    ghost var kept;
    outcome, len, kept := reader.Readline(file, buffer, length);
    match outcome {
      case OK =>
        line := buffer[..len];
        LineRead(before, line, reader.Pending(file), length);
      case TIMEOUT =>
      case DONE =>
        NoLines(before);
        EmptyHasNoEol();
        NoLines(reader.Pending(file));
      case ERROR_ =>
        TooLong(before, buffer[..kept], reader.Pending(file));
    }
  }

  lemma EmptyHasNoEol()
    ensures NoEol([])
  {
  }

  /** The loop of every caller: read lines until the end of the input, retrying after a timeout.
      Whatever the schedule, the lines are those of splitting the whole text. */
  method ReadAllLines(reader: FastReader, file: InputFile, length: nat) returns (lines: seq<string>, result: Result)
    requires reader.Valid() && AllSized(file.events) && length <= 2048
    modifies reader`saveptr, reader`savecount, reader.savebuf, file
    ensures reader.Valid() && (result == DONE || result == ERROR_)
    ensures lines + Lines(reader.Pending(file)) == Lines(old(reader.Pending(file)))
            || (result == ERROR_ && lines <= Lines(old(reader.Pending(file))))
    ensures result == DONE ==> lines == Lines(old(reader.Pending(file)))
    ensures Fits(old(reader.Pending(file)), length) && Broken !in old(file.events) ==> result == DONE
  {
    hide *;
    ghost var text := reader.Pending(file);
    var buffer := new char[length](_ => ' ');
    lines := [];
    AllLeft(file.events);
    while true
      invariant reader.Valid() && AllSized(file.events) && LeftOf(file.events, old(file.events))
      invariant lines + Lines(reader.Pending(file)) == Lines(text)
      invariant Fits(text, length) ==> Fits(reader.Pending(file), length)
      decreases |file.events|, |reader.Pending(file)|
    {
      ghost var left := file.events;
      var outcome, line := NextLine(reader, file, buffer, length);
      StillLeft(file.events, left, old(file.events));
      match outcome {
        case OK =>
          lines := lines + [line];
        case TIMEOUT =>
        case DONE =>
          return lines, DONE;
        case ERROR_ =>
          return lines, ERROR_;
      }
    }
  }

  lemma AllLeft(events: seq<Event>)
    ensures LeftOf(events, events)
  {
  }

  lemma StillLeft(rest: seq<Event>, events: seq<Event>, all: seq<Event>)
    requires LeftOf(rest, events) && LeftOf(events, all)
    ensures LeftOf(rest, all) && |rest| <= |events| <= |all| && (AllSized(events) ==> AllSized(rest))
    ensures Broken in events ==> Broken in all
  {
  }
}
