/**
 What a log file is read as, in terms of the codec's answers alone: logs of this server and logs
 in the older format, with either kind of line ending.
 */
module WalReading {
  import opened Prelude
  import opened Lexer
  import opened Store
  import opened Wal
  import opened Server
  import opened History
  import opened Restart
  import opened RestartVersions

  /** A line gives an entry: a checked envelope under its id, or, if it is no envelope, a command
      in the old format under id 0.  A blank line gives none. */
  predicate Gives(codec: Codec, line: string, e: LogEntry) {
    && !(forall c <- line :: c == ' ' || '\U{9}' <= c <= '\U{D}')
    && match codec.decode(line)
       case Some(env) => codec.checksum(env.c) == env.k && e == LogEntry(env.txId, env.c)
       case None => codec.decodeBare(line).Some? && e == LogEntry(0, codec.decodeBare(line).value)
  }

  lemma ReadLineGives(codec: Codec, line: string, e: LogEntry)
    ensures ReadLine(codec, line) == Some(e) <==> Gives(codec, line, e)
  {
    assert Blank(line) <==> forall c <- line :: IsWhitespace(c);
  }

  /** `at` lists the lines that give an entry, in order; `es` are their entries. */
  ghost predicate Extracts(codec: Codec, lines: seq<string>, at: seq<nat>, es: seq<LogEntry>) {
    && |at| == |es|
    && (forall i :: 0 <= i < |at| ==> at[i] < |lines| && Gives(codec, lines[at[i]], es[i]))
    && (forall i, j :: 0 <= i < j < |at| ==> at[i] < at[j])
    && (forall n, e :: 0 <= n < |lines| && Gives(codec, lines[n], e) ==> n in at)
  }

  lemma ExtractsMore(codec: Codec, lines: seq<string>, line: string, at: seq<nat>, es: seq<LogEntry>)
    requires Extracts(codec, lines, at, es)
    ensures (forall e :: !Gives(codec, line, e)) ==> Extracts(codec, lines + [line], at, es)
    ensures forall e :: Gives(codec, line, e) ==> Extracts(codec, lines + [line], at + [|lines|], es + [e])
  {
    var lines' := lines + [line];
    forall n, e | 0 <= n < |lines'| && Gives(codec, lines'[n], e) ensures n in at || n == |lines| {
      if n < |lines| {
        assert Gives(codec, lines[n], e);
      }
    }
    assert forall i :: 0 <= i < |at| ==> lines'[at[i]] == lines[at[i]];
  }

  lemma {:induction false} ReadLinesSnoc(codec: Codec, lines: seq<string>, line: string)
    ensures ReadLines(codec, lines + [line]) == ReadLines(codec, lines) + ToSeq(ReadLine(codec, line))
  {
    if lines == [] {
      assert [] + [line] == [line];
      ReadOneLine(codec, line);
    } else {
      ReadLinesSnoc(codec, lines[1..], line);
      assert (lines + [line])[1..] == lines[1..] + [line];
    }
  }

  lemma {:induction false} ReadLinesExtracts(codec: Codec, lines: seq<string>) returns (at: seq<nat>)
    ensures Extracts(codec, lines, at, ReadLines(codec, lines))
  {
    at := [];
    if lines != [] {
      var before, line := lines[..|lines| - 1], lines[|lines| - 1];
      at := ReadLinesExtracts(codec, before);
      ReadLinesSnoc(codec, before, line);
      ExtractsMore(codec, before, line, at, ReadLines(codec, before));
      assert before + [line] == lines;
      match ReadLine(codec, line)
      case Some(e) =>
        ReadLineGives(codec, line, e);
        at := at + [|before|];
      case None =>
        forall e ensures !Gives(codec, line, e) { ReadLineGives(codec, line, e); }
    }
  }

  ghost predicate Increasing(s: seq<nat>) {
    forall i, j :: 0 <= i < j < |s| ==> s[i] < s[j]
  }

  lemma LastIsGreatest(s: seq<nat>, n: nat)
    requires Increasing(s) && n in s
    ensures n <= s[|s| - 1]
  {
    var i :| 0 <= i < |s| && s[i] == n;
  }

  lemma WithoutLast(s: seq<nat>, n: nat)
    requires Increasing(s) && s != []
    ensures n in s[..|s| - 1] <==> n in s && n != s[|s| - 1]
  {
    assert s == s[..|s| - 1] + [s[|s| - 1]];
  }

  ghost predicate SameMembers(s: seq<nat>, t: seq<nat>) {
    forall n :: n in s <==> n in t
  }

  lemma SameLast(s: seq<nat>, t: seq<nat>)
    requires Increasing(s) && Increasing(t) && SameMembers(s, t) && s != [] && t != []
    ensures s[|s| - 1] == t[|t| - 1] && SameMembers(s[..|s| - 1], t[..|t| - 1])
  {
    LastIsGreatest(s, t[|t| - 1]);
    LastIsGreatest(t, s[|s| - 1]);
    var s', t' := s[..|s| - 1], t[..|t| - 1];
    forall n ensures n in s' <==> n in t' {
      WithoutLast(s, n);
      WithoutLast(t, n);
    }
  }

  lemma {:induction false} IncreasingUnique(s: seq<nat>, t: seq<nat>)
    requires Increasing(s) && Increasing(t) && SameMembers(s, t)
    ensures s == t
  {
    assert s != [] ==> s[0] in s;
    assert t != [] ==> t[0] in t;
    if s != [] && t != [] {
      SameLast(s, t);
      IncreasingUnique(s[..|s| - 1], t[..|t| - 1]);
      assert s == s[..|s| - 1] + [s[|s| - 1]] && t == t[..|t| - 1] + [t[|t| - 1]];
    }
  }

  lemma {:induction false} ExtractsUnique(codec: Codec, lines: seq<string>, at: seq<nat>, es: seq<LogEntry>,
                                          at': seq<nat>, es': seq<LogEntry>)
    requires Extracts(codec, lines, at, es) && Extracts(codec, lines, at', es')
    ensures at == at' && es == es'
  {
    IncreasingUnique(at, at') by {
      forall n ensures n in at <==> n in at' {
        if n in at {
          var i :| 0 <= i < |at| && at[i] == n;
          assert Gives(codec, lines[n], es[i]);
        }
        if n in at' {
          var i :| 0 <= i < |at'| && at'[i] == n;
          assert Gives(codec, lines[n], es'[i]);
        }
      }
    }
    assert forall i :: 0 <= i < |es| ==> Gives(codec, lines[at[i]], es[i]) && Gives(codec, lines[at'[i]], es'[i]);
  }

  /** `es` is what some of the lines give, each once and in order, and the others give nothing. */
  ghost predicate Holds(codec: Codec, lines: seq<string>, es: seq<LogEntry>) {
    exists at :: Extracts(codec, lines, at, es)
  }

  /** Main theorem: the entries of a file are what its lines give, each line once, in order. */
  lemma ReadAllExact(codec: Codec, file: string, es: seq<LogEntry>)
    ensures ReadAll(codec, file) == es <==> Holds(codec, Lines(file), es)
  {
    var lines := Lines(file);
    var at := ReadLinesExtracts(codec, lines);
    assert Holds(codec, lines, ReadLines(codec, lines));
    if Holds(codec, lines, es) {
      var at' :| Extracts(codec, lines, at', es);
      ExtractsUnique(codec, lines, at, ReadLines(codec, lines), at', es);
    }
  }

  // --- Lines -------------------------------------------------------------------------------------------

  predicate NoBreak(s: string) {
    '\n' !in s
  }

  /** A line as it can stand in a file, in front of its ending. */
  predicate IsLine(s: string) {
    NoBreak(s) && (s != [] ==> s[|s| - 1] != '\r')
  }

  /** Lines with their endings: a newline, or a carriage return and a newline. */
  function Joined(ls: seq<string>, crlf: seq<bool>): string
    requires |crlf| == |ls|
  {
    if ls == [] then [] else ls[0] + ((if crlf[0] then "\r\n" else "\n") + Joined(ls[1..], crlf[1..]))
  }

  lemma LinesStep(body: string, rest: string)
    requires NoBreak(body)
    ensures Lines(body + (['\n'] + rest)) == [Chomp(body)] + Lines(rest)
  {
    var file := body + (['\n'] + rest);
    assert forall i :: 0 <= i < |body| ==> NotNewline(body[i]);
    SpanExact(NotNewline, body, ['\n'] + rest);
    assert file[..|body|] == body && file[|body| + 1..] == rest;
  }

  lemma LinesCons(l: string, crlf: bool, rest: string)
    requires IsLine(l)
    ensures Lines(l + ((if crlf then "\r\n" else "\n") + rest)) == [l] + Lines(rest)
  {
    var body := if crlf then l + ['\r'] else l;
    assert l + ((if crlf then "\r\n" else "\n") + rest) == body + (['\n'] + rest);
    LinesStep(body, rest);
    assert Chomp(body) == l;
  }

  lemma JoinedCons(ls: seq<string>, crlf: seq<bool>, more: string)
    requires |crlf| == |ls| > 0
    ensures Joined(ls, crlf) + more ==
            ls[0] + ((if crlf[0] then "\r\n" else "\n") + (Joined(ls[1..], crlf[1..]) + more))
  {
    var ending, rest := if crlf[0] then "\r\n" else "\n", Joined(ls[1..], crlf[1..]);
    assert (ls[0] + (ending + rest)) + more == ls[0] + (ending + (rest + more));
  }

  /** Main theorem on lines: endings of both kinds are taken off, and an unterminated last line
      counts if it is not empty. */
  lemma {:induction false} LinesExact(ls: seq<string>, crlf: seq<bool>, last: string)
    requires |crlf| == |ls| && (forall l <- ls :: IsLine(l)) && NoBreak(last)
    ensures Lines(Joined(ls, crlf) + last) == ls + if last == [] then [] else [last]
  {
    if ls == [] {
      assert Joined(ls, crlf) + last == last && last + [] == last;
      SpanExact(NotNewline, last, []);
    } else {
      assert ls[0] in ls;
      LinesExact(ls[1..], crlf[1..], last);
      JoinedCons(ls, crlf, last);
      LinesCons(ls[0], crlf[0], Joined(ls[1..], crlf[1..]) + last);
      assert ls == [ls[0]] + ls[1..];
    }
  }

  // --- Logs that begin in the old format -----------------------------------------------------------------

  /** A line of an older log: a bare command. */
  predicate OldLine(codec: Codec, l: string, cmd: WalCommand) {
    IsLine(l) && !Blank(l) && codec.decode(l) == None && codec.decodeBare(l) == Some(cmd)
  }

  ghost predicate HasOldLine(codec: Codec, cmd: WalCommand) {
    exists l :: OldLine(codec, l, cmd)
  }

  function OldEntries(cmds: seq<WalCommand>): (es: seq<LogEntry>)
    ensures |es| == |cmds| && forall i :: 0 <= i < |cmds| ==> es[i] == LogEntry(0, cmds[i])
  {
    seq(|cmds|, i requires 0 <= i < |cmds| => LogEntry(0, cmds[i]))
  }

  lemma ReadAllCons(codec: Codec, l: string, crlf: bool, rest: string, cmd: WalCommand)
    requires OldLine(codec, l, cmd)
    ensures ReadAll(codec, l + ((if crlf then "\r\n" else "\n") + rest)) == [LogEntry(0, cmd)] + ReadAll(codec, rest)
  {
    LinesCons(l, crlf, rest);
    OldLineGives(codec, l, cmd);
    ReadLineGives(codec, l, LogEntry(0, cmd));
    assert ([l] + Lines(rest))[1..] == Lines(rest);
  }

  lemma OldEntriesCons(cmds: seq<WalCommand>, entries: seq<LogEntry>)
    requires cmds != []
    ensures OldEntries(cmds) + entries == [LogEntry(0, cmds[0])] + (OldEntries(cmds[1..]) + entries)
  {
  }

  /** Old lines followed by new ones read as both. */
  lemma {:induction false} MixedLog(codec: Codec, ls: seq<string>, crlf: seq<bool>, cmds: seq<WalCommand>,
                                    entries: seq<LogEntry>)
    requires Faithful(codec) && |ls| == |crlf| == |cmds|
    requires forall i :: 0 <= i < |ls| ==> OldLine(codec, ls[i], cmds[i])
    ensures ReadAll(codec, Joined(ls, crlf) + FileOf(codec, entries)) == OldEntries(cmds) + entries
  {
    if ls == [] {
      ReadWritten(codec, entries);
      assert Joined(ls, crlf) + FileOf(codec, entries) == FileOf(codec, entries);
      assert OldEntries(cmds) + entries == entries;
    } else {
      var rest := Joined(ls[1..], crlf[1..]) + FileOf(codec, entries);
      MixedLog(codec, ls[1..], crlf[1..], cmds[1..], entries);
      ReadAllCons(codec, ls[0], crlf[0], rest, cmds[0]);
      JoinedCons(ls, crlf, FileOf(codec, entries));
      OldEntriesCons(cmds, entries);
    }
  }

  lemma OldLineGives(codec: Codec, l: string, cmd: WalCommand)
    requires OldLine(codec, l, cmd)
    ensures Gives(codec, l, LogEntry(0, cmd))
  {
  }

  /** Old entries count up, one version each. */
  lemma {:induction false} OldEntriesCount(c: Config, cmds: seq<WalCommand>, now: nat)
    ensures Replay(c, NOTHING, OldEntries(cmds), now).maxVer == |cmds|
  {
    if cmds != [] {
      var last := |cmds| - 1;
      OldEntriesCount(c, cmds[..last], now);
      assert OldEntries(cmds)[..last] == OldEntries(cmds[..last]);
      ReplayEntryVersion(c, Replay(c, NOTHING, OldEntries(cmds[..last]), now), LogEntry(0, cmds[last]), now, []);
    }
  }

  /** Main theorem: a restart on such a log shows, for every key, its last write in either part,
      unless that was a Put that has expired. */
  lemma MixedRestart(c: Config, codec: Codec, ls: seq<string>, crlf: seq<bool>, cmds: seq<WalCommand>,
                     entries: seq<LogEntry>, k: string, now: nat)
    requires Faithful(codec) && |ls| == |crlf| == |cmds|
    requires forall i :: 0 <= i < |ls| ==> OldLine(codec, ls[i], cmds[i])
    ensures var log := ReadAll(codec, Joined(ls, crlf) + FileOf(codec, entries));
            var b := Rebuild(c, [], log, now);
            log == OldEntries(cmds) + entries &&
            match LastWrite(OldEntries(cmds) + entries, k)
            case None => Visible(Find(b.tree, k), now) == None
            case Some((_, Removed)) => Visible(Find(b.tree, k), now) == None
            case Some((_, Stored(v, e))) => !IsExpired(e, now) ==> Visible(Find(b.tree, k), now) == Some(Seen(v, e))
  {
    MixedLog(codec, ls, crlf, cmds, entries);
    var log := OldEntries(cmds) + entries;
    RebuildAt(c, FRESH.(wal := log), now, k);
    EffectiveVsLast(log, k, now);
  }
}
