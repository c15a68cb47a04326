/**
 The log file as bytes.  A crash cuts it at a byte; when that falls inside a character, the
 reader fails and the whole log is dropped.
 */
module WalBytes {
  import opened Prelude
  import opened Store
  import opened Wal
  import opened Server
  import opened Restart

  /** A character encoding: no character is encoded as nothing, or as the beginning of another. */
  ghost predicate PrefixFree(utf8: char -> Bytes) {
    && (forall ch :: utf8(ch) != [])
    && (forall a, b :: utf8(a) <= utf8(b) ==> a == b)
  }

  function Encoded(utf8: char -> Bytes, s: string): Bytes {
    if s == [] then [] else utf8(s[0]) + Encoded(utf8, s[1..])
  }

  lemma PrefixesCompare(a: Bytes, x: Bytes, b: Bytes, y: Bytes)
    requires a + x <= b + y
    ensures a <= b || b <= a
  {
    var n := if |a| <= |b| then |a| else |b|;
    assert forall i :: 0 <= i < n ==> a[i] == (a + x)[i] == (b + y)[i] == b[i];
  }

  lemma PrefixTails(a: Bytes, x: Bytes, y: Bytes)
    requires a + x <= a + y
    ensures x <= y
  {
    assert forall i :: 0 <= i < |x| ==> x[i] == (a + x)[|a| + i] == (a + y)[|a| + i] == y[i];
  }

  /** What is encoded in a prefix is a prefix. */
  lemma {:induction false} EncodedPrefix(utf8: char -> Bytes, t: string, s: string)
    requires PrefixFree(utf8) && Encoded(utf8, t) <= Encoded(utf8, s)
    ensures t <= s
  {
    if t != [] {
      assert utf8(t[0]) != [];
      assert s != [];
      PrefixesCompare(utf8(t[0]), Encoded(utf8, t[1..]), utf8(s[0]), Encoded(utf8, s[1..]));
      assert t[0] == s[0];
      PrefixTails(utf8(t[0]), Encoded(utf8, t[1..]), Encoded(utf8, s[1..]));
      EncodedPrefix(utf8, t[1..], s[1..]);
      assert t == [t[0]] + t[1..] && s == [s[0]] + s[1..];
    }
  }

  /** How many characters a cut after `n` bytes leaves whole. */
  function WholeChars(utf8: char -> Bytes, s: string, n: nat): (m: nat)
    ensures m <= |s|
  {
    if s == [] || n < |utf8(s[0])| then 0 else 1 + WholeChars(utf8, s[1..], n - |utf8(s[0])|)
  }

  /** The cut falls between characters. */
  predicate BetweenChars(utf8: char -> Bytes, s: string, n: nat) {
    n == |Encoded(utf8, s[..WholeChars(utf8, s, n)])|
  }

  lemma {:induction false} EncodedTake(utf8: char -> Bytes, s: string, m: nat)
    requires m <= |s|
    ensures Encoded(utf8, s[..m]) <= Encoded(utf8, s)
  {
    if m > 0 {
      EncodedTake(utf8, s[1..], m - 1);
      assert s[..m][1..] == s[1..][..m - 1];
      var a, x, y := utf8(s[0]), Encoded(utf8, s[1..][..m - 1]), Encoded(utf8, s[1..]);
      assert forall i :: 0 <= i < |a + x| ==> (a + x)[i] == (a + y)[i];
    }
  }

  lemma {:induction false} WholeCharsOfPrefix(utf8: char -> Bytes, s: string, m: nat)
    requires PrefixFree(utf8) && m <= |s|
    ensures WholeChars(utf8, s, |Encoded(utf8, s[..m])|) == m
  {
    if m > 0 {
      WholeCharsOfPrefix(utf8, s[1..], m - 1);
      assert s[..m][1..] == s[1..][..m - 1];
    } else if s != [] {
      assert utf8(s[0]) != [];
    }
  }

  predicate Encodes(utf8: char -> Bytes, s: string, bs: Bytes) {
    Encoded(utf8, s) == bs
  }

  ghost function Decoded(utf8: char -> Bytes, bs: Bytes): Option<string> {
    if exists s :: Encodes(utf8, s, bs) then
      var s :| Encodes(utf8, s, bs); Some(s)
    else None
  }

  lemma DecodesItself(utf8: char -> Bytes, s: string)
    requires PrefixFree(utf8)
    ensures Decoded(utf8, Encoded(utf8, s)) == Some(s)
  {
    var bs := Encoded(utf8, s);
    assert Encodes(utf8, s, bs);
    var t := Decoded(utf8, bs).value;
    assert Encodes(utf8, t, bs);
    EncodedPrefix(utf8, t, s);
    EncodedPrefix(utf8, s, t);
    assert t == s;
  }

  /** What a cut file decodes to. */
  lemma CutDecodes(utf8: char -> Bytes, s: string, n: nat)
    requires PrefixFree(utf8) && n <= |Encoded(utf8, s)|
    ensures Decoded(utf8, Encoded(utf8, s)[..n]) ==
            if BetweenChars(utf8, s, n) then Some(s[..WholeChars(utf8, s, n)]) else None
  {
    var cut := Encoded(utf8, s)[..n];
    if BetweenChars(utf8, s, n) {
      var m := WholeChars(utf8, s, n);
      EncodedTake(utf8, s, m);
      assert cut == Encoded(utf8, s[..m]);
      DecodesItself(utf8, s[..m]);
    } else if exists t :: Encodes(utf8, t, cut) {
      var t :| Encodes(utf8, t, cut);
      EncodedPrefix(utf8, t, s);
      assert t == s[..|t|];
      WholeCharsOfPrefix(utf8, s, |t|);
      assert false;
    }
  }

  /** What restart reads of a log file: nothing at all if any of it is not text. */
  ghost function ReadBytes(codec: Codec, utf8: char -> Bytes, bs: Bytes): seq<LogEntry> {
    match Decoded(utf8, bs)
    case None => []
    case Some(file) => ReadAll(codec, file)
  }

  /** Main theorem: a log file cut at any byte reads as the entries whose lines are complete, if
      the cut falls between characters, and as nothing otherwise. */
  lemma CrashBytes(codec: Codec, utf8: char -> Bytes, entries: seq<LogEntry>, n: nat)
    requires Faithful(codec) && PrefixFree(utf8) && n <= |Encoded(utf8, FileOf(codec, entries))|
    ensures var file := FileOf(codec, entries);
            ReadBytes(codec, utf8, Encoded(utf8, file)[..n]) ==
            if BetweenChars(utf8, file, n) then entries[..Survivors(codec, entries, WholeChars(utf8, file, n))] else []
  {
    var file := FileOf(codec, entries);
    CutDecodes(utf8, file, n);
    CrashPrefix(codec, entries, WholeChars(utf8, file, n));
  }

  /** So after a crash inside a character, restart shows the snapshot alone. */
  lemma TornCharacter(c: Config, codec: Codec, utf8: char -> Bytes, recs: seq<SnapshotRecord>, entries: seq<LogEntry>,
                      n: nat, now: nat)
    requires Faithful(codec) && PrefixFree(utf8) && n <= |Encoded(utf8, FileOf(codec, entries))|
    requires !BetweenChars(utf8, FileOf(codec, entries), n)
    ensures Rebuild(c, recs, ReadBytes(codec, utf8, Encoded(utf8, FileOf(codec, entries))[..n]), now) ==
            Load(c, recs, now)
  {
    CrashBytes(codec, utf8, entries, n);
  }

  /** A cut after the first byte of a longer character is one. */
  lemma FirstByteTears(utf8: char -> Bytes, s: string)
    requires s != [] && |utf8(s[0])| > 1
    ensures !BetweenChars(utf8, s, 1)
  {
  }

  /** Such encodings exist, and they may need several bytes for a character. */
  function Unary(ch: char): Bytes {
    seq(ch as int, _ => 1) + [0]
  }

  lemma UnaryPrefixFree()
    ensures PrefixFree(Unary)
  {
    forall a, b ensures Unary(a) <= Unary(b) ==> a == b {
      if a < b {
        assert Unary(a)[a as int] == 0 && Unary(b)[a as int] == 1;
      }
    }
  }
}
