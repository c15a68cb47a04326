/**
 The assumptions on encoders in `Wal` can be met: a self-delimiting code for log envelopes.
 (The program's own code is JSON; this one only shows that nothing impossible is assumed.)
 */
module WalCodec {
  import opened Prelude
  import opened Store
  import opened Wal
  import opened WalReading
  import opened Lexer

  function NatText(n: nat): string {
    if n == 0 then "0" else "1" + NatText(n - 1)
  }

  function NatsText(ns: seq<nat>): string {
    if ns == [] then "0" else "1" + (NatText(ns[0]) + NatsText(ns[1..]))
  }

  function KeyCodes(s: string): (ns: seq<nat>)
    ensures |ns| == |s| && forall i :: 0 <= i < |s| ==> ns[i] == s[i] as nat
  {
    seq(|s|, i requires 0 <= i < |s| => s[i] as nat)
  }

  function ByteCodes(s: Bytes): (ns: seq<nat>)
    ensures |ns| == |s| && forall i :: 0 <= i < |s| ==> ns[i] == s[i] as nat
  {
    seq(|s|, i requires 0 <= i < |s| => s[i] as nat)
  }

  function CommandText(c: WalCommand): string
    decreases c, 1
  {
    match c
    case Put(k, v, e) =>
      "a" + (NatsText(KeyCodes(k)) + (NatsText(ByteCodes(v)) + NatsText(if e.Some? then [e.value] else [])))
    case Delete(k) => "b" + NatsText(KeyCodes(k))
    case TxCommit(cs) => "c" + CommandsText(cs)
  }

  function CommandsText(cs: seq<WalCommand>): string
    decreases cs, 0
  {
    if cs == [] then "0" else "1" + (CommandText(cs[0]) + CommandsText(cs[1..]))
  }

  function EnvelopeText(e: WalEnvelope): string {
    "{" + (NatsText([e.txId, e.k]) + (CommandText(e.c) + "}"))
  }

  // --- No text is followed by the same rest as another text ------------------------------------------

  lemma Regrouped(k: string, v: string, e: string, x: string)
    ensures (("a" + (k + (v + e))) + x)[1..] == k + (v + (e + x))
  {
  }

  lemma RegroupedItem(a: string, b: string, x: string)
    ensures (("1" + (a + b)) + x)[1..] == a + (b + x)
  {
  }

  lemma {:induction false} NatUnique(m: nat, n: nat, x: string, y: string)
    requires NatText(m) + x == NatText(n) + y
    ensures m == n && x == y
  {
    var s := NatText(m) + x;
    assert s[0] == NatText(m)[0] == NatText(n)[0];
    if m == 0 || n == 0 {
      assert s[1..] == x && s[1..] == y;
    } else {
      assert s[1..] == NatText(m - 1) + x && s[1..] == NatText(n - 1) + y;
      NatUnique(m - 1, n - 1, x, y);
    }
  }

  lemma {:induction false} NatsUnique(a: seq<nat>, b: seq<nat>, x: string, y: string)
    requires NatsText(a) + x == NatsText(b) + y
    ensures a == b && x == y
  {
    var s := NatsText(a) + x;
    assert s[0] == NatsText(a)[0] == NatsText(b)[0];
    if a == [] || b == [] {
      assert s[1..] == x && s[1..] == y;
    } else {
      RegroupedItem(NatText(a[0]), NatsText(a[1..]), x);
      RegroupedItem(NatText(b[0]), NatsText(b[1..]), y);
      NatUnique(a[0], b[0], NatsText(a[1..]) + x, NatsText(b[1..]) + y);
      NatsUnique(a[1..], b[1..], x, y);
      assert a == [a[0]] + a[1..] && b == [b[0]] + b[1..];
    }
  }

  lemma KeyCodesUnique(a: string, b: string)
    requires KeyCodes(a) == KeyCodes(b)
    ensures a == b
  {
    forall i | 0 <= i < |a| ensures a[i] == b[i] {
      assert KeyCodes(a)[i] == KeyCodes(b)[i];
    }
  }

  lemma ByteCodesUnique(a: Bytes, b: Bytes)
    requires ByteCodes(a) == ByteCodes(b)
    ensures a == b
  {
    forall i | 0 <= i < |a| ensures a[i] == b[i] {
      assert ByteCodes(a)[i] == ByteCodes(b)[i];
    }
  }

  lemma PutUnique(c: WalCommand, d: WalCommand, x: string, y: string)
    requires c.Put? && d.Put? && CommandText(c) + x == CommandText(d) + y
    ensures c == d && x == y
  {
    var ce := if c.expiresAt.Some? then [c.expiresAt.value] else [];
    var de := if d.expiresAt.Some? then [d.expiresAt.value] else [];
    var cv, dv := NatsText(ByteCodes(c.value)), NatsText(ByteCodes(d.value));
    Regrouped(NatsText(KeyCodes(c.key)), cv, NatsText(ce), x);
    Regrouped(NatsText(KeyCodes(d.key)), dv, NatsText(de), y);
    NatsUnique(KeyCodes(c.key), KeyCodes(d.key), cv + (NatsText(ce) + x), dv + (NatsText(de) + y));
    NatsUnique(ByteCodes(c.value), ByteCodes(d.value), NatsText(ce) + x, NatsText(de) + y);
    NatsUnique(ce, de, x, y);
    KeyCodesUnique(c.key, d.key);
    ByteCodesUnique(c.value, d.value);
  }

  lemma {:induction false} CommandUnique(c: WalCommand, d: WalCommand, x: string, y: string)
    requires CommandText(c) + x == CommandText(d) + y
    ensures c == d && x == y
    decreases c, 1
  {
    var s := CommandText(c) + x;
    assert s[0] == CommandText(c)[0] == CommandText(d)[0];
    match c
    case Put(_, _, _) => PutUnique(c, d, x, y);
    case Delete(k) =>
      assert s[1..] == NatsText(KeyCodes(k)) + x && s[1..] == NatsText(KeyCodes(d.key)) + y;
      NatsUnique(KeyCodes(k), KeyCodes(d.key), x, y);
      KeyCodesUnique(k, d.key);
    case TxCommit(cs) =>
      assert s[1..] == CommandsText(cs) + x && s[1..] == CommandsText(d.cmds) + y;
      CommandsUnique(cs, d.cmds, x, y);
  }

  lemma {:induction false} CommandsUnique(cs: seq<WalCommand>, ds: seq<WalCommand>, x: string, y: string)
    requires CommandsText(cs) + x == CommandsText(ds) + y
    ensures cs == ds && x == y
    decreases cs, 0
  {
    var s := CommandsText(cs) + x;
    assert s[0] == CommandsText(cs)[0] == CommandsText(ds)[0];
    if cs == [] || ds == [] {
      assert s[1..] == x && s[1..] == y;
    } else {
      RegroupedItem(CommandText(cs[0]), CommandsText(cs[1..]), x);
      RegroupedItem(CommandText(ds[0]), CommandsText(ds[1..]), y);
      CommandUnique(cs[0], ds[0], CommandsText(cs[1..]) + x, CommandsText(ds[1..]) + y);
      CommandsUnique(cs[1..], ds[1..], x, y);
      assert cs == [cs[0]] + cs[1..] && ds == [ds[0]] + ds[1..];
    }
  }

  lemma EnvelopeUnique(e: WalEnvelope, f: WalEnvelope, x: string)
    requires EnvelopeText(e) == EnvelopeText(f) + x
    ensures e == f && x == []
  {
    var s := EnvelopeText(e);
    assert s[1..] == NatsText([e.txId, e.k]) + (CommandText(e.c) + "}");
    assert s[1..] == NatsText([f.txId, f.k]) + (CommandText(f.c) + ("}" + x));
    NatsUnique([e.txId, e.k], [f.txId, f.k], CommandText(e.c) + "}", CommandText(f.c) + ("}" + x));
    CommandUnique(e.c, f.c, "}", "}" + x);
    assert [e.txId, e.k][0] == [f.txId, f.k][0] && [e.txId, e.k][1] == [f.txId, f.k][1];
  }

  // --- One line ------------------------------------------------------------------------------------------

  predicate Clean(s: string) {
    forall c <- s :: c in "01abc"
  }

  lemma {:induction false} NatClean(n: nat)
    ensures Clean(NatText(n))
  {
    if n > 0 {
      NatClean(n - 1);
    }
  }

  lemma {:induction false} NatsClean(ns: seq<nat>)
    ensures Clean(NatsText(ns))
  {
    if ns != [] {
      NatClean(ns[0]);
      NatsClean(ns[1..]);
    }
  }

  lemma {:induction false} CommandClean(c: WalCommand)
    ensures Clean(CommandText(c))
    decreases c, 1
  {
    match c
    case Put(k, v, e) =>
      NatsClean(KeyCodes(k));
      NatsClean(ByteCodes(v));
      NatsClean(if e.Some? then [e.value] else []);
    case Delete(k) => NatsClean(KeyCodes(k));
    case TxCommit(cs) => CommandsClean(cs);
  }

  lemma {:induction false} CommandsClean(cs: seq<WalCommand>)
    ensures Clean(CommandsText(cs))
    decreases cs, 0
  {
    if cs != [] {
      CommandClean(cs[0]);
      CommandsClean(cs[1..]);
    }
  }

  /** One line, with an opening brace at its start and nowhere else. */
  lemma EnvelopeOneLine(e: WalEnvelope)
    ensures OneLine(EnvelopeText(e)) && EnvelopeText(e)[0] == '{'
    ensures forall i :: 0 < i < |EnvelopeText(e)| ==> EnvelopeText(e)[i] != '{'
  {
    NatsClean([e.txId, e.k]);
    CommandClean(e.c);
    var s := EnvelopeText(e);
    var inside := NatsText([e.txId, e.k]) + CommandText(e.c);
    assert Clean(inside);
    assert s == "{" + inside + "}";
    forall i | 0 < i < |s| ensures s[i] != '{' {
      assert i < |s| - 1 ==> s[i] == inside[i - 1] && inside[i - 1] in inside;
    }
  }

  ghost function DecodeText(s: string): Option<WalEnvelope> {
    if exists e :: EnvelopeText(e) == s then var e :| EnvelopeText(e) == s; Some(e) else None
  }

  predicate SpellsCommand(s: string, c: WalCommand) {
    CommandText(c) == s
  }

  ghost function DecodeCommand(s: string): Option<WalCommand> {
    if exists c :: SpellsCommand(s, c) then var c :| SpellsCommand(s, c); Some(c) else None
  }

  lemma CommandStart(c: WalCommand)
    ensures CommandText(c) != [] && CommandText(c)[0] in "abc"
  {
  }

  lemma NoCommand(s: string)
    requires s == [] || s[0] !in "abc"
    ensures DecodeCommand(s) == None
  {
    forall c ensures !SpellsCommand(s, c) { CommandStart(c); }
  }

  lemma CommandIsLine(c: WalCommand)
    ensures IsLine(CommandText(c)) && !Blank(CommandText(c))
  {
    var s := CommandText(c);
    CommandClean(c);
    CommandStart(c);
    assert s[0] in s && s[|s| - 1] in s;
    assert !IsWhitespace(s[0]);
  }

  lemma CommandDecodes(c: WalCommand)
    ensures DecodeCommand(CommandText(c)) == Some(c)
  {
    var s := CommandText(c);
    assert SpellsCommand(s, c);
    var d := DecodeCommand(s).value;
    assert SpellsCommand(s, d);
    CommandUnique(c, d, [], []);
  }

  lemma CommandIsNoEnvelope(c: WalCommand)
    ensures DecodeText(CommandText(c)) == None
  {
    CommandStart(c);
    forall e ensures EnvelopeText(e) != CommandText(c) { EnvelopeOneLine(e); }
  }

  /** A bare command is a line of the old format. */
  lemma CommandIsOldLine(codec: Codec, c: WalCommand)
    requires codec.decode(CommandText(c)) == DecodeText(CommandText(c))
    requires codec.decodeBare(CommandText(c)) == DecodeCommand(CommandText(c))
    ensures HasOldLine(codec, c)
  {
    CommandIsLine(c);
    CommandDecodes(c);
    CommandIsNoEnvelope(c);
    assert OldLine(codec, CommandText(c), c);
  }

  /** Some codec has every property that the theorems on log files assume, and has a line of the
      old format for every command. */
  lemma FaithfulCodecExists()
    ensures exists codec :: Faithful(codec) && forall c :: HasOldLine(codec, c)
  {
    var codec := Codec(e => EnvelopeText(e), s => DecodeText(s), s => DecodeCommand(s), c => 0);
    forall e ensures FaithfulAt(codec, e) {
      EncodingFaithful(e);
      EnvelopeOneLine(e);
      forall n | 0 <= n < |EnvelopeText(e)| ensures DecodeCommand(EnvelopeText(e)[..n]) == None {
        NoCommand(EnvelopeText(e)[..n]);
      }
    }
    forall e, e' ensures UnjoinableAt(codec, e, e') {
      NotJoined(e, e');
      EnvelopeOneLine(e);
      forall n | 0 < n <= |EnvelopeText(e)| ensures DecodeCommand(EnvelopeText(e)[..n] + EnvelopeText(e')) == None {
        NoCommand(EnvelopeText(e)[..n] + EnvelopeText(e'));
      }
    }
    forall c ensures HasOldLine(codec, c) {
      CommandIsOldLine(codec, c);
    }
    assert Faithful(codec);
  }

  lemma NotJoined(e: WalEnvelope, e': WalEnvelope)
    ensures forall n :: 0 < n <= |EnvelopeText(e)| ==> DecodeText(EnvelopeText(e)[..n] + EnvelopeText(e')) == None
  {
    forall n | 0 < n <= |EnvelopeText(e)| ensures DecodeText(EnvelopeText(e)[..n] + EnvelopeText(e')) == None {
      var joined := EnvelopeText(e)[..n] + EnvelopeText(e');
      EnvelopeOneLine(e');
      assert joined[n] == EnvelopeText(e')[0];
      if exists f :: EnvelopeText(f) == joined {
        var f :| EnvelopeText(f) == joined;
        EnvelopeOneLine(f);
        assert false;
      }
    }
  }

  lemma EncodingFaithful(e: WalEnvelope)
    ensures var s := EnvelopeText(e);
            DecodeText(s) == Some(e) && OneLine(s) && forall n :: 0 <= n < |s| ==> DecodeText(s[..n]) == None
  {
    var s := EnvelopeText(e);
    EnvelopeOneLine(e);
    assert exists f :: EnvelopeText(f) == s;
    var f := DecodeText(s).value;
    assert s == EnvelopeText(f) + [];
    EnvelopeUnique(e, f, []);
    forall n | 0 <= n < |s| ensures DecodeText(s[..n]) == None {
      if exists f :: EnvelopeText(f) == s[..n] {
        var f :| EnvelopeText(f) == s[..n];
        assert s == EnvelopeText(f) + s[n..];
        EnvelopeUnique(e, f, s[n..]);
      }
    }
  }
}
