/**
 The write-ahead log as a file of characters: one encoded envelope per line.  The encoder,
 its decoders and the checksum are parameters, of which only what JSON guarantees is used.
 */
module Wal {
  import opened Prelude
  import opened Store
  import opened Lexer

  datatype WalEnvelope = WalEnvelope(c: WalCommand, k: nat, txId: nat)

  datatype Codec = Codec(
    encode: WalEnvelope -> string,
    decode: string -> Option<WalEnvelope>,
    decodeBare: string -> Option<WalCommand>,
    checksum: WalCommand -> nat)

  /** The encoding of an envelope is one non-blank line from which it can be decoded, and no
      proper prefix of it decodes: a JSON object is complete only at its closing brace. */
  ghost predicate FaithfulAt(codec: Codec, e: WalEnvelope) {
    var text := codec.encode(e);
    && codec.decode(text) == Some(e)
    && OneLine(text)
    && (forall n :: 0 <= n < |text| ==> codec.decode(text[..n]) == None && codec.decodeBare(text[..n]) == None)
  }

  /** An encoding appended to what a cut left of another one does not decode: the joined JSON
      has one closing brace too few, or something after its last one. */
  ghost predicate UnjoinableAt(codec: Codec, e: WalEnvelope, e': WalEnvelope) {
    forall n :: 0 < n <= |codec.encode(e)| ==>
      var joined := codec.encode(e)[..n] + codec.encode(e');
      codec.decode(joined) == None && codec.decodeBare(joined) == None
  }

  ghost predicate Faithful(codec: Codec) {
    (forall e :: FaithfulAt(codec, e)) && (forall e, e' :: UnjoinableAt(codec, e, e'))
  }

  predicate OneLine(s: string) {
    s != [] && !IsWhitespace(s[0]) && s[|s| - 1] != '\r' && forall c <- s :: NotNewline(c)
  }

  predicate NotNewline(c: char) {
    c != '\n'
  }

  predicate Blank(s: string) {
    forall c <- s :: IsWhitespace(c)
  }

  /** A terminated line loses a carriage return before its newline. */
  function Chomp(s: string): string {
    if s != [] && s[|s| - 1] == '\r' then s[..|s| - 1] else s
  }

  /** The lines of a file; an unterminated last line counts when it is not empty. */
  function Lines(file: string): seq<string>
    decreases |file|
  {
    var n := Span(NotNewline, file);
    if file == [] then []
    else if n == |file| then [file]
    else [Chomp(file[..n])] + Lines(file[n + 1..])
  }

  function ReadLine(codec: Codec, line: string): Option<LogEntry> {
    if Blank(line) then None
    else match codec.decode(line)
      case Some(env) => if codec.checksum(env.c) == env.k then Some(LogEntry(env.txId, env.c)) else None
      case None =>
        match codec.decodeBare(line)
        case Some(cmd) => Some(LogEntry(0, cmd))
        case None => None
  }

  function ToSeq<T>(o: Option<T>): seq<T> {
    if o.Some? then [o.value] else []
  }

  function ReadLines(codec: Codec, lines: seq<string>): seq<LogEntry> {
    if lines == [] then [] else ToSeq(ReadLine(codec, lines[0])) + ReadLines(codec, lines[1..])
  }

  function ReadAll(codec: Codec, file: string): seq<LogEntry> {
    ReadLines(codec, Lines(file))
  }

  // --- Writing ------------------------------------------------------------------------------------

  function Line(codec: Codec, e: LogEntry): string {
    codec.encode(WalEnvelope(e.cmd, codec.checksum(e.cmd), e.id))
  }

  function FileOf(codec: Codec, entries: seq<LogEntry>): string {
    if entries == [] then "" else Line(codec, entries[0]) + ("\n" + FileOf(codec, entries[1..]))
  }

  lemma {:induction false} FileSnoc(codec: Codec, entries: seq<LogEntry>, e: LogEntry)
    ensures FileOf(codec, entries + [e]) == FileOf(codec, entries) + (Line(codec, e) + "\n")
  {
    if entries == [] {
      assert entries + [e] == [e];
      assert FileOf(codec, [e]) == Line(codec, e) + ("\n" + FileOf(codec, []));
    } else {
      FileSnoc(codec, entries[1..], e);
      assert (entries + [e])[1..] == entries[1..] + [e];
    }
  }

  lemma LineFacts(codec: Codec, e: LogEntry)
    requires Faithful(codec)
    ensures var l := Line(codec, e);
            && OneLine(l) && !Blank(l)
            && codec.decode(l) == Some(WalEnvelope(e.cmd, codec.checksum(e.cmd), e.id))
  {
    assert FaithfulAt(codec, WalEnvelope(e.cmd, codec.checksum(e.cmd), e.id));
    assert Line(codec, e)[0] in Line(codec, e);
  }

  lemma FirstLine(codec: Codec, e: LogEntry, rest: string)
    requires Faithful(codec)
    ensures Lines(Line(codec, e) + ("\n" + rest)) == [Line(codec, e)] + Lines(rest)
  {
    var l := Line(codec, e);
    var file := l + ("\n" + rest);
    LineFacts(codec, e);
    assert forall i :: 0 <= i < |l| ==> l[i] in l;
    SpanExact(NotNewline, l, "\n" + rest);
    assert file[..|l|] == l && file[|l| + 1..] == rest;
  }

  lemma ReadOwnLine(codec: Codec, e: LogEntry)
    requires Faithful(codec)
    ensures ReadLine(codec, Line(codec, e)) == Some(e)
  {
    LineFacts(codec, e);
  }

  lemma ReadFirst(codec: Codec, e: LogEntry, rest: string)
    requires Faithful(codec)
    ensures ReadAll(codec, Line(codec, e) + ("\n" + rest)) == [e] + ReadAll(codec, rest)
  {
    FirstLine(codec, e, rest);
    ReadOwnLine(codec, e);
    assert ([Line(codec, e)] + Lines(rest))[1..] == Lines(rest);
  }

  // --- Crashes --------------------------------------------------------------------------------------

  /** A line cut short reads as nothing, and the full line without its newline as its entry. */
  lemma ReadTornLine(codec: Codec, e: LogEntry, n: nat)
    requires Faithful(codec) && n <= |Line(codec, e)|
    ensures ReadAll(codec, Line(codec, e)[..n]) == if n == |Line(codec, e)| then [e] else []
  {
    var l := Line(codec, e);
    LineFacts(codec, e);
    var torn := l[..n];
    assert forall i :: 0 <= i < |torn| ==> torn[i] in l;
    SpanExact(NotNewline, torn, []);
    assert torn + [] == torn;
    assert Lines(torn) == if torn == [] then [] else [torn];
    if n == |l| {
      assert torn == l;
      ReadOwnLine(codec, e);
    } else {
      assert FaithfulAt(codec, WalEnvelope(e.cmd, codec.checksum(e.cmd), e.id));
    }
    ReadOneLine(codec, torn);
  }

  lemma ReadOneLine(codec: Codec, line: string)
    ensures ReadLines(codec, [line]) == ToSeq(ReadLine(codec, line))
  {
    assert [line][1..] == [];
  }

  /** How many entries of a log survive when its file is cut after `n` characters: those whose
      encodings are complete, with or without the newline. */
  function Survivors(codec: Codec, entries: seq<LogEntry>, n: nat): (j: nat)
    ensures j <= |entries|
  {
    if entries == [] then 0
    else
      var len := |Line(codec, entries[0])|;
      if n < len then 0
      else if n == len then 1
      else 1 + Survivors(codec, entries[1..], n - len - 1)
  }

  lemma CutAfterLine(l: string, rest: string, n: nat)
    requires |l| < n <= |l| + 1 + |rest|
    ensures (l + ("\n" + rest))[..n] == l + ("\n" + rest[..n - |l| - 1])
  {
  }

  /** A crash at any character leaves a file that reads as a prefix of the log: every entry
      survives whole or not at all. */
  lemma {:induction false} CrashPrefix(codec: Codec, entries: seq<LogEntry>, n: nat)
    requires Faithful(codec) && n <= |FileOf(codec, entries)|
    ensures ReadAll(codec, FileOf(codec, entries)[..n]) == entries[..Survivors(codec, entries, n)]
  {
    if entries == [] {
    } else {
      var e, l := entries[0], Line(codec, entries[0]);
      var rest := FileOf(codec, entries[1..]);
      var file := l + ("\n" + rest);
      if n <= |l| {
        assert file[..n] == l[..n];
        ReadTornLine(codec, e, n);
      } else {
        var m := n - |l| - 1;
        CrashPrefix(codec, entries[1..], m);
        CutAfterLine(l, rest, n);
        ReadFirst(codec, e, rest[..m]);
        assert entries[..1 + Survivors(codec, entries[1..], m)] ==
            [e] + entries[1..][..Survivors(codec, entries[1..], m)];
      }
    }
  }

  lemma OneLineFile(codec: Codec, e: LogEntry)
    ensures FileOf(codec, [e]) == Line(codec, e) + "\n"
  {
    assert FileOf(codec, [e]) == Line(codec, e) + ("\n" + FileOf(codec, []));
  }

  /** A last line that is cut reads as its entry once only the newline is missing. */
  lemma ReadCutLine(codec: Codec, e: LogEntry, m: nat)
    requires Faithful(codec) && m <= |Line(codec, e) + "\n"|
    ensures ReadAll(codec, (Line(codec, e) + "\n")[..m]) == if m >= |Line(codec, e)| then [e] else []
  {
    OneLineFile(codec, e);
    CrashPrefix(codec, [e], m);
  }

  lemma {:induction false} AllSurvive(codec: Codec, entries: seq<LogEntry>)
    requires Faithful(codec)
    ensures Survivors(codec, entries, |FileOf(codec, entries)|) == |entries|
  {
    if entries != [] {
      AllSurvive(codec, entries[1..]);
    }
  }

  /** Without a crash, reading inverts writing. */
  lemma ReadWritten(codec: Codec, entries: seq<LogEntry>)
    requires Faithful(codec)
    ensures ReadAll(codec, FileOf(codec, entries)) == entries
  {
    var file := FileOf(codec, entries);
    CrashPrefix(codec, entries, |file|);
    AllSurvive(codec, entries);
    assert file[..|file|] == file && entries[..|entries|] == entries;
  }

  /** Whole lines read the same whatever follows them. */
  lemma {:induction false} ReadThen(codec: Codec, entries: seq<LogEntry>, tail: string)
    requires Faithful(codec)
    ensures ReadAll(codec, FileOf(codec, entries) + tail) == entries + ReadAll(codec, tail)
  {
    if entries == [] {
      assert FileOf(codec, entries) + tail == tail;
    } else {
      var rest := FileOf(codec, entries[1..]) + tail;
      ReadThen(codec, entries[1..], tail);
      ReadFirst(codec, entries[0], rest);
      Regroup(Line(codec, entries[0]), "\n", FileOf(codec, entries[1..]), tail);
      assert [entries[0]] + (entries[1..] + ReadAll(codec, tail)) == entries + ReadAll(codec, tail);
    }
  }

  lemma Regroup(a: string, b: string, c: string, d: string)
    ensures (a + (b + c)) + d == a + (b + (c + d))
  {
  }

  /** How many lines of a log file a cut after `n` characters leaves with their newline. */
  function WholeLines(codec: Codec, entries: seq<LogEntry>, n: nat): (j: nat)
    ensures j <= |entries|
  {
    if entries == [] || n <= |Line(codec, entries[0])| then 0
    else 1 + WholeLines(codec, entries[1..], n - |Line(codec, entries[0])| - 1)
  }

  /** A cut that falls on a line boundary. */
  predicate OnBoundary(codec: Codec, entries: seq<LogEntry>, n: nat) {
    n == |FileOf(codec, entries[..WholeLines(codec, entries, n)])|
  }

  lemma BoundaryStep(codec: Codec, entries: seq<LogEntry>, n: nat)
    requires entries != []
    ensures var len := |Line(codec, entries[0])|;
            OnBoundary(codec, entries, n) <==> if n <= len then n == 0 else OnBoundary(codec, entries[1..], n - len - 1)
  {
    var len := |Line(codec, entries[0])|;
    if n > len {
      var j := WholeLines(codec, entries[1..], n - len - 1);
      assert entries[..j + 1][1..] == entries[1..][..j];
    }
  }

  /** Main theorem: the log is reopened for appending after a crash without repairing its end.
      The next record is therefore recovered exactly when the cut fell on a line boundary.
      Otherwise it continues the torn line, and both are lost, even if the torn line lacked
      nothing but its newline and could be read before the append. */
  lemma {:induction false} AppendAfterCrash(codec: Codec, entries: seq<LogEntry>, n: nat, e: LogEntry)
    requires Faithful(codec) && n <= |FileOf(codec, entries)|
    ensures ReadAll(codec, FileOf(codec, entries)[..n] + (Line(codec, e) + "\n")) ==
            entries[..WholeLines(codec, entries, n)] + if OnBoundary(codec, entries, n) then [e] else []
  {
    var added := Line(codec, e) + "\n";
    if entries == [] {
      ReadJoined(codec, "", e);
      ReadOwnLine(codec, e);
      assert "" + Line(codec, e) == Line(codec, e) && FileOf(codec, entries)[..n] + added == "" + Line(codec, e) + "\n";
    } else {
      var l := Line(codec, entries[0]);
      BoundaryStep(codec, entries, n);
      if n <= |l| {
        assert FileOf(codec, entries)[..n] == l[..n];
        AppendToTornLine(codec, entries[0], n, e);
      } else {
        AppendAfterCrash(codec, entries[1..], n - |l| - 1, e);
        ReadWholeFirst(codec, entries, n, added);
        var j := WholeLines(codec, entries[1..], n - |l| - 1);
        assert entries[..j + 1] == [entries[0]] + entries[1..][..j];
      }
    }
  }

  /** A cut beyond the first line leaves it whole. */
  lemma ReadWholeFirst(codec: Codec, entries: seq<LogEntry>, n: nat, added: string)
    requires Faithful(codec) && entries != [] && |Line(codec, entries[0])| < n <= |FileOf(codec, entries)|
    ensures var m := n - |Line(codec, entries[0])| - 1;
            ReadAll(codec, FileOf(codec, entries)[..n] + added) ==
            [entries[0]] + ReadAll(codec, FileOf(codec, entries[1..])[..m] + added)
  {
    var l, rest := Line(codec, entries[0]), FileOf(codec, entries[1..]);
    var m := n - |l| - 1;
    CutAfterLine(l, rest, n);
    Regroup(l, "\n", rest[..m], added);
    ReadFirst(codec, entries[0], rest[..m] + added);
  }

  lemma AppendToTornLine(codec: Codec, e: LogEntry, n: nat, e': LogEntry)
    requires Faithful(codec) && n <= |Line(codec, e)|
    ensures ReadAll(codec, Line(codec, e)[..n] + (Line(codec, e') + "\n")) == if n == 0 then [e'] else []
  {
    var torn := Line(codec, e)[..n];
    LineFacts(codec, e);
    LineFacts(codec, e');
    ReadJoined(codec, torn, e');
    assert torn + (Line(codec, e') + "\n") == torn + Line(codec, e') + "\n";
    if n == 0 {
      assert torn + Line(codec, e') == Line(codec, e');
      ReadOwnLine(codec, e');
    } else {
      assert UnjoinableAt(codec, WalEnvelope(e.cmd, codec.checksum(e.cmd), e.id),
                          WalEnvelope(e'.cmd, codec.checksum(e'.cmd), e'.id));
    }
  }

  lemma ReadJoined(codec: Codec, torn: string, e: LogEntry)
    requires Faithful(codec) && forall c <- torn :: NotNewline(c)
    ensures ReadAll(codec, torn + Line(codec, e) + "\n") == ToSeq(ReadLine(codec, torn + Line(codec, e)))
  {
    var l := Line(codec, e);
    var joined := torn + l;
    LineFacts(codec, e);
    assert forall i :: 0 <= i < |joined| ==> joined[i] in torn || joined[i] in l;
    SpanExact(NotNewline, joined, "\n");
    var file := joined + "\n";
    assert file[..|joined|] == joined && file[|joined| + 1..] == [];
    assert Chomp(joined) == joined by { assert joined[|joined| - 1] == l[|l| - 1]; }
    assert Lines(file) == [joined];
    ReadOneLine(codec, joined);
  }

  /** The worst case: a record that had survived the crash is lost with the next append. */
  lemma AppendDestroys(codec: Codec, e: LogEntry, e': LogEntry)
    requires Faithful(codec)
    ensures ReadAll(codec, Line(codec, e)) == [e]
    ensures ReadAll(codec, Line(codec, e) + (Line(codec, e') + "\n")) == []
  {
    var l := Line(codec, e);
    LineFacts(codec, e);
    assert l[..|l|] == l;
    ReadTornLine(codec, e, |l|);
    AppendToTornLine(codec, e, |l|, e');
  }

  // --- The log file -------------------------------------------------------------------------------------

  function FromId(entries: seq<LogEntry>, start: nat): seq<LogEntry> {
    if entries == [] then []
    else (if entries[0].id >= start then [entries[0]] else []) + FromId(entries[1..], start)
  }

  lemma {:induction false} FromIdConcat(a: seq<LogEntry>, b: seq<LogEntry>, start: nat)
    ensures FromId(a + b, start) == FromId(a, start) + FromId(b, start)
  {
    if a == [] {
      assert a + b == b;
    } else {
      FromIdConcat(a[1..], b, start);
      assert (a + b)[1..] == a[1..] + b;
    }
  }

  /** One line of the reading for followers; here old-format lines are not accepted. */
  function LineFrom(codec: Codec, line: string, start: nat): seq<LogEntry> {
    if Blank(line) || codec.decode(line).None? then []
    else
      var env := codec.decode(line).value;
      if env.txId >= start && codec.checksum(env.c) == env.k then [LogEntry(env.txId, env.c)] else []
  }

  function ReadFrom(codec: Codec, lines: seq<string>, start: nat): seq<LogEntry> {
    if lines == [] then [] else LineFrom(codec, lines[0], start) + ReadFrom(codec, lines[1..], start)
  }

  /** Whatever the file contains, and for every id a follower can ask for, both readers agree:
      old-format lines, which only the other one accepts, have id 0. */
  lemma {:induction false} ReadersAgree(codec: Codec, lines: seq<string>, start: nat)
    requires start > 0
    ensures ReadFrom(codec, lines, start) == FromId(ReadLines(codec, lines), start)
  {
    if lines != [] {
      ReadersAgree(codec, lines[1..], start);
      var first := ReadLine(codec, lines[0]);
      FromIdConcat(ToSeq(first), ReadLines(codec, lines[1..]), start);
      if first.Some? {
        assert ToSeq(first)[1..] == [];
      }
    }
  }

  class Wal {
    const codec: Codec
    var file: string
    ghost var entries: seq<LogEntry>

    ghost predicate Valid()
      reads this
    {
      Faithful(codec) && file == FileOf(codec, entries)
    }

    constructor (codec: Codec)
      requires Faithful(codec)
      ensures Valid() && entries == [] && this.codec == codec
    {
      this.codec := codec;
      file, entries := "", [];
    }

    method Append(txId: nat, command: WalCommand)
      requires Valid()
      modifies this
      ensures Valid() && entries == old(entries) + [LogEntry(txId, command)]
    {
      var crc := codec.checksum(command);
      var json := codec.encode(WalEnvelope(command, crc, txId)) + "\n";
      FileSnoc(codec, entries, LogEntry(txId, command));
      file := file + json;
      entries := entries + [LogEntry(txId, command)];
    }

    method Truncate()
      requires Valid()
      modifies this
      ensures Valid() && entries == []
    {
      file, entries := "", [];
    }
  }

  /** Reads a log file, whatever it contains, skipping what does not decode or check. */
  method ReadAllCommands(codec: Codec, file: string) returns (commands: seq<LogEntry>)
    ensures commands == ReadAll(codec, file)
  {
    var lines := Lines(file);
    commands := [];
    for i := 0 to |lines|
      invariant commands + ReadLines(codec, lines[i..]) == ReadAll(codec, file)
    {
      ReadLinesStep(codec, lines, i);
      var entry := ParseLine(codec, lines[i]);
      assert commands + (ToSeq(entry) + ReadLines(codec, lines[i + 1..])) ==
             (commands + ToSeq(entry)) + ReadLines(codec, lines[i + 1..]);
      commands := commands + ToSeq(entry);
    }
  }

  lemma ReadLinesStep(codec: Codec, lines: seq<string>, i: nat)
    requires i < |lines|
    ensures ReadLines(codec, lines[i..]) == ToSeq(ReadLine(codec, lines[i])) + ReadLines(codec, lines[i + 1..])
  {
    assert lines[i..][1..] == lines[i + 1..];
  }

  /** One line of that reading: a checked envelope, or a command in the old format. */
  method ParseLine(codec: Codec, line: string) returns (entry: Option<LogEntry>)
    ensures entry == ReadLine(codec, line)
  {
    entry := None;
    if !Blank(line) {
      match codec.decode(line) {
        case Some(env) =>
          if codec.checksum(env.c) == env.k {
            entry := Some(LogEntry(env.txId, env.c));
          }
        case None =>
          match codec.decodeBare(line) {
            case Some(cmd) => entry := Some(LogEntry(0, cmd));
            case None =>
          }
      }
    }
  }

  /** Reads the entries from a given id on. */
  method ReadFromTxId(codec: Codec, file: string, startTxId: nat) returns (results: seq<LogEntry>)
    ensures results == ReadFrom(codec, Lines(file), startTxId)
    ensures startTxId > 0 ==> results == FromId(ReadAll(codec, file), startTxId)
  {
    var lines := Lines(file);
    results := [];
    for i := 0 to |lines|
      invariant results + ReadFrom(codec, lines[i..], startTxId) == ReadFrom(codec, lines, startTxId)
    {
      ReadFromStep(codec, lines, startTxId, i);
      var kept := ParseLineFrom(codec, lines[i], startTxId);
      assert results + (kept + ReadFrom(codec, lines[i + 1..], startTxId)) ==
             (results + kept) + ReadFrom(codec, lines[i + 1..], startTxId);
      results := results + kept;
    }
    if startTxId > 0 {
      ReadersAgree(codec, lines, startTxId);
    }
  }

  lemma ReadFromStep(codec: Codec, lines: seq<string>, start: nat, i: nat)
    requires i < |lines|
    ensures ReadFrom(codec, lines[i..], start) ==
            LineFrom(codec, lines[i], start) + ReadFrom(codec, lines[i + 1..], start)
  {
    assert lines[i..][1..] == lines[i + 1..];
  }

  method ParseLineFrom(codec: Codec, line: string, startTxId: nat) returns (kept: seq<LogEntry>)
    ensures kept == LineFrom(codec, line, startTxId)
  {
    kept := [];
    if !Blank(line) {
      match codec.decode(line) {
        case Some(env) =>
          if env.txId >= startTxId && codec.checksum(env.c) == env.k {
            kept := [LogEntry(env.txId, env.c)];
          }
        case None =>
      }
    }
  }
}
