/** The language of hstore text: which texts the parser accepts, and which pairs each
    of them means (contrib/hstore/hstore_io.c). */
module HStoreGrammar {
  import opened Wrappers
  import opened HStoreBase
  import opened HStoreUnique
  import opened HStoreText

  // ------------------------------------------------------------------- words

  /** One character of a word, as it is or behind a backslash. */
  datatype Piece = Piece(c: Byte, escaped: bool)

  function Write(p: Piece): Bytes {
    if p.escaped then [BACKSLASH, p.c] else [p.c]
  }

  function WriteAll(ps: seq<Piece>): Bytes {
    if ps == [] then [] else Write(ps[0]) + WriteAll(ps[1..])
  }

  function Letters(ps: seq<Piece>): Bytes {
    if ps == [] then [] else [ps[0].c] + Letters(ps[1..])
  }

  /** A word as it is written, or within double quotes. */
  datatype Token = Bare(ps: seq<Piece>) | InQuotes(ps: seq<Piece>)

  function Text(k: Token): Bytes {
    if k.Bare? then WriteAll(k.ps) else [QUOTE] + WriteAll(k.ps) + [QUOTE]
  }

  ghost predicate Spaces(b: Bytes) {
    forall i :: 0 <= i < |b| ==> IsSpace(b[i])
  }

  /** Within quotes only the quote and the backslash must be escaped. */
  predicate QuotedPiece(p: Piece) {
    p.escaped || (p.c != QUOTE && p.c != BACKSLASH)
  }

  /** The first character of a bare word: no space, quote or backslash, and in a key
      no equals sign. */
  predicate FirstPiece(p: Piece, value: bool) {
    p.escaped || (p.c != QUOTE && p.c != BACKSLASH && !IsSpace(p.c) && (p.c == EQUALS ==> value))
  }

  /** A later one: no space or backslash, in a key no equals sign and in a value no
      comma. */
  predicate LaterPiece(p: Piece, value: bool) {
    p.escaped || (p.c != BACKSLASH && !IsSpace(p.c) && (if value then p.c != COMMA else p.c != EQUALS))
  }

  ghost predicate LaterPieces(ps: seq<Piece>, value: bool) {
    forall i :: 0 <= i < |ps| ==> LaterPiece(ps[i], value)
  }

  ghost predicate QuotedPieces(ps: seq<Piece>) {
    forall i :: 0 <= i < |ps| ==> QuotedPiece(ps[i])
  }

  /** A key, or a value, as it may be written. */
  ghost predicate TokenOk(k: Token, value: bool) {
    match k
    case InQuotes(ps) => QuotedPieces(ps)
    case Bare(ps) => ps != [] && FirstPiece(ps[0], value) && LaterPieces(ps[1..], value)
  }

  /** What may stand behind a bare word. */
  predicate Stops(t: Bytes, value: bool) {
    t == [] || IsSpace(t[0]) || t[0] == if value then COMMA else EQUALS
  }

  /** The text that is left once the word has been read: a space that ends it is
      used up. */
  function After(t: Bytes): Bytes {
    if t != [] && IsSpace(t[0]) then t[1..] else t
  }

  // --------------------------------------------------- every word is read back

  lemma {:induction false} SkipSpaces(sp: Bytes, t: Bytes, value: bool)
    requires Spaces(sp)
    ensures Word(sp + t, WaitVal, [], false, value) == Word(t, WaitVal, [], false, value)
  {
    if sp == [] {
      assert sp + t == t;
    } else {
      assert IsSpace(sp[0]);
      assert (sp + t)[1..] == sp[1..] + t;
      SkipSpaces(sp[1..], t, value);
    }
  }

  lemma Regroup(a: Bytes, b: Bytes, d: Bytes)
    ensures (a + b) + d == a + (b + d)
  {
  }

  lemma WriteNext(ps: seq<Piece>, t: Bytes, word: Bytes)
    requires ps != []
    ensures WriteAll(ps) + t == Write(ps[0]) + (WriteAll(ps[1..]) + t)
    ensures word + Letters(ps) == word + [ps[0].c] + Letters(ps[1..])
  {
    var w, u, l := Write(ps[0]), WriteAll(ps[1..]), Letters(ps[1..]);
    assert WriteAll(ps) == w + u && Letters(ps) == [ps[0].c] + l;
    hide *;
    Regroup(w, u, t);
    Regroup(word, [ps[0].c], l);
  }

  lemma StepInQuotes(p: Piece, u: Bytes, word: Bytes, value: bool)
    requires QuotedPiece(p)
    ensures Word(Write(p) + u, InEscVal, word, true, value) == Word(u, InEscVal, word + [p.c], true, value)
  {
    var s := Write(p) + u;
    if p.escaped {
      assert s[1..] == [p.c] + u && s[1..][1..] == u;
    } else {
      assert s[1..] == u;
    }
  }

  lemma {:induction false} ReadInQuotes(ps: seq<Piece>, t: Bytes, word: Bytes, value: bool)
    requires QuotedPieces(ps)
    ensures Word(WriteAll(ps) + ([QUOTE] + t), InEscVal, word, true, value) == Val(word + Letters(ps), true, t)
    decreases |ps|
  {
    if ps == [] {
      assert WriteAll(ps) + ([QUOTE] + t) == [QUOTE] + t && ([QUOTE] + t)[1..] == t;
      assert word + Letters(ps) == word;
    } else {
      WriteNext(ps, [QUOTE] + t, word);
      StepInQuotes(ps[0], WriteAll(ps[1..]) + ([QUOTE] + t), word, value);
      ReadInQuotes(ps[1..], t, word + [ps[0].c], value);
    }
  }

  lemma StepBare(p: Piece, u: Bytes, word: Bytes, value: bool)
    requires LaterPiece(p, value)
    ensures Word(Write(p) + u, InVal, word, false, value) == Word(u, InVal, word + [p.c], false, value)
  {
    var s := Write(p) + u;
    if p.escaped {
      assert s[1..] == [p.c] + u && s[1..][1..] == u;
    } else {
      assert s[1..] == u;
    }
  }

  lemma {:induction false} ReadBare(ps: seq<Piece>, t: Bytes, word: Bytes, value: bool)
    requires LaterPieces(ps, value) && Stops(t, value)
    ensures Word(WriteAll(ps) + t, InVal, word, false, value) == Val(word + Letters(ps), false, After(t))
    decreases |ps|
  {
    if ps == [] {
      assert WriteAll(ps) + t == t;
      assert word + Letters(ps) == word;
    } else {
      WriteNext(ps, t, word);
      StepBare(ps[0], WriteAll(ps[1..]) + t, word, value);
      ReadBare(ps[1..], t, word + [ps[0].c], value);
    }
  }

  lemma FirstBare(p: Piece, u: Bytes, value: bool)
    requires FirstPiece(p, value)
    ensures Word(Write(p) + u, WaitVal, [], false, value) == Word(u, InVal, [p.c], false, value)
  {
    var s, w: Bytes := Write(p) + u, [p.c];
    assert [] + w == w;
    if p.escaped {
      assert s[1..] == w + u && s[1..][1..] == u;
      assert Word(s, WaitVal, [], false, value) == Word(s[1..], WaitEscIn, [], false, value);
    } else {
      assert s[1..] == u;
    }
  }

  lemma ReadWord(k: Token, t: Bytes, value: bool)
    requires TokenOk(k, value) && (k.Bare? ==> Stops(t, value))
    ensures Word(Text(k) + t, WaitVal, [], false, value) ==
            Val(Letters(k.ps), k.InQuotes?, if k.Bare? then After(t) else t)
  {
    if k.Bare? {
      ReadBareWord(k.ps, t, value);
    } else {
      ReadQuotedWord(k.ps, t, value);
    }
  }

  lemma ReadBareWord(ps: seq<Piece>, t: Bytes, value: bool)
    requires TokenOk(Bare(ps), value) && Stops(t, value)
    ensures Word(WriteAll(ps) + t, WaitVal, [], false, value) == Val(Letters(ps), false, After(t))
  {
    WriteNext(ps, t, []);
    FirstBare(ps[0], WriteAll(ps[1..]) + t, value);
    ReadBare(ps[1..], t, [ps[0].c], value);
    hide Word;
  }

  lemma QuotedThen(w: Bytes, t: Bytes)
    ensures [QUOTE] + w + [QUOTE] + t == [QUOTE] + (w + ([QUOTE] + t))
    ensures ([QUOTE] + (w + ([QUOTE] + t)))[1..] == w + ([QUOTE] + t)
  {
  }

  lemma ReadQuotedWord(ps: seq<Piece>, t: Bytes, value: bool)
    requires QuotedPieces(ps)
    ensures Word(Text(InQuotes(ps)) + t, WaitVal, [], false, value) == Val(Letters(ps), true, t)
  {
    QuotedThen(WriteAll(ps), t);
    ReadInQuotes(ps, t, [], value);
    assert [] + Letters(ps) == Letters(ps);
    hide WriteAll, Letters;
  }

  // ------------------------------------------------ every word read was written

  lemma {:induction false} WrittenInQuotes(t: Bytes, word: Bytes, value: bool) returns (ps: seq<Piece>, rest: Bytes)
    requires Word(t, InEscVal, word, true, value).Val?
    ensures QuotedPieces(ps) && t == WriteAll(ps) + ([QUOTE] + rest)
    decreases |t|
  {
    if t[0] == QUOTE {
      ps, rest := [], t[1..];
    } else if t[0] == BACKSLASH {
      assert Word(t, InEscVal, word, true, value) == Word(t[1..], WaitEscEscIn, word, true, value);
      var p := Piece(t[1], true);
      assert t[1..][1..] == t[2..];
      ps, rest := WrittenInQuotes(t[2..], word + [t[1]], value);
      WriteNext([p] + ps, [QUOTE] + rest, word);
      assert t == Write(p) + t[2..];
      ps := [p] + ps;
    } else {
      var p := Piece(t[0], false);
      ps, rest := WrittenInQuotes(t[1..], word + [t[0]], value);
      WriteNext([p] + ps, [QUOTE] + rest, word);
      assert t == Write(p) + t[1..];
      ps := [p] + ps;
    }
  }

  lemma {:induction false} WrittenBare(t: Bytes, word: Bytes, value: bool) returns (ps: seq<Piece>, rest: Bytes)
    requires Word(t, InVal, word, false, value).Val?
    ensures LaterPieces(ps, value) && Stops(rest, value) && t == WriteAll(ps) + rest
    decreases |t|
  {
    if Stops(t, value) {
      ps, rest := [], t;
    } else if t[0] == BACKSLASH {
      assert Word(t, InVal, word, false, value) == Word(t[1..], WaitEscIn, word, false, value);
      var p := Piece(t[1], true);
      assert t[1..][1..] == t[2..];
      ps, rest := WrittenBare(t[2..], word + [t[1]], value);
      WriteNext([p] + ps, rest, word);
      assert t == Write(p) + t[2..];
      ps := [p] + ps;
    } else {
      var p := Piece(t[0], false);
      ps, rest := WrittenBare(t[1..], word + [t[0]], value);
      WriteNext([p] + ps, rest, word);
      assert t == Write(p) + t[1..];
      ps := [p] + ps;
    }
  }

  lemma {:induction false} WrittenWord(t: Bytes, value: bool) returns (sp: Bytes, k: Token, rest: Bytes)
    requires Word(t, WaitVal, [], false, value).Val?
    ensures Spaces(sp) && TokenOk(k, value) && (k.Bare? ==> Stops(rest, value)) && t == sp + (Text(k) + rest)
    decreases |t|
  {
    sp := [];
    if t[0] == QUOTE {
      var ps;
      ps, rest := WrittenInQuotes(t[1..], [], value);
      k := InQuotes(ps);
      assert t == [QUOTE] + t[1..] == Text(k) + rest;
    } else if t[0] == BACKSLASH {
      assert Word(t, WaitVal, [], false, value) == Word(t[1..], WaitEscIn, [], false, value);
      assert t[1..][1..] == t[2..];
      k, rest := WrittenFrom(Piece(t[1], true), t[2..], value);
      assert t == Write(Piece(t[1], true)) + t[2..];
    } else if !IsSpace(t[0]) {
      k, rest := WrittenFrom(Piece(t[0], false), t[1..], value);
      assert t == Write(Piece(t[0], false)) + t[1..];
    } else {
      sp, k, rest := WrittenWord(t[1..], value);
      assert t == [t[0]] + t[1..] == ([t[0]] + sp) + (Text(k) + rest);
      sp := [t[0]] + sp;
    }
  }

  lemma WrittenFrom(p: Piece, u: Bytes, value: bool) returns (k: Token, rest: Bytes)
    requires FirstPiece(p, value) && Word(u, InVal, [] + [p.c], false, value).Val?
    ensures TokenOk(k, value) && k.Bare? && Stops(rest, value) && Write(p) + u == Text(k) + rest
  {
    var ps;
    ps, rest := WrittenBare(u, [] + [p.c], value);
    k := Bare([p] + ps);
    assert k.ps[1..] == ps;
    WriteNext(k.ps, rest, []);
  }

  lemma {:induction false} NoWordIff(t: Bytes, value: bool)
    ensures Word(t, WaitVal, [], false, value).NoVal? <==> Spaces(t)
    decreases |t|
  {
    if t != [] {
      if IsSpace(t[0]) {
        NoWordIff(t[1..], value);
        assert t == [t[0]] + t[1..];
      } else {
        NeverNone(t[1..], InVal, [] + [t[0]], false, value);
        NeverNone(t[1..], InEscVal, [], true, value);
        NeverNone(t[1..], WaitEscIn, [], false, value);
      }
    }
  }

  lemma {:induction false} NeverNone(t: Bytes, st: GVState, word: Bytes, escaped: bool, value: bool)
    requires !st.WaitVal?
    ensures !Word(t, st, word, escaped, value).NoVal?
    decreases |t|
  {
    if t != [] {
      NeverNone(t[1..], InVal, word + [t[0]], escaped, value);
      NeverNone(t[1..], InEscVal, word + [t[0]], escaped, value);
      NeverNone(t[1..], WaitEscIn, word, escaped, value);
      NeverNone(t[1..], WaitEscEscIn, word, escaped, value);
    }
  }

  // ------------------------------------------------------------------- texts

  /** The word null, each letter large or small. */
  predicate SpellsNull(w: Bytes) {
    && |w| == 4
    && (w[0] == 110 || w[0] == 78) && (w[1] == 117 || w[1] == 85)
    && (w[2] == 108 || w[2] == 76) && (w[3] == 108 || w[3] == 76)
  }

  lemma NullWordIff(w: Bytes)
    ensures IsNullWord(w) <==> SpellsNull(w)
  {
  }

  /** A pair as it is written, with the spaces before the key, before the arrow,
      before the value and behind it. */
  datatype Entry = Entry(before: Bytes, key: Token, mid: Bytes, gap: Bytes, val: Token, after: Bytes)

  ghost predicate EntryOk(e: Entry) {
    && Spaces(e.before) && Spaces(e.mid) && Spaces(e.gap) && Spaces(e.after)
    && TokenOk(e.key, false) && |Letters(e.key.ps)| <= MAX_LEN
    && TokenOk(e.val, true) && |Letters(e.val.ps)| <= MAX_LEN
  }

  /** What stands behind the key, with t behind the entry. */
  function ValueText(e: Entry, t: Bytes): Bytes {
    e.gap + (Text(e.val) + (e.after + t))
  }

  function ArrowText(e: Entry, t: Bytes): Bytes {
    e.mid + ([EQUALS, GREATER] + ValueText(e, t))
  }

  /** The text of an entry with t behind it. */
  function EntryText(e: Entry, t: Bytes): Bytes {
    e.before + (Text(e.key) + ArrowText(e, t))
  }

  /** The pair that an entry means: a bare null is a null, a quoted one is a string. */
  function RecOf(e: Entry): PairRec {
    var w := Letters(e.val.ps);
    PairRec(Letters(e.key.ps), w, e.val.Bare? && SpellsNull(w), true)
  }

  function RecsOf(es: seq<Entry>): seq<PairRec> {
    if es == [] then [] else [RecOf(es[0])] + RecsOf(es[1..])
  }

  /** The text consists of the entries, with a comma behind each; the last one may be
      missing, and spaces may follow it. */
  ghost predicate Writes(t: Bytes, es: seq<Entry>)
    decreases |es|
  {
    if es == [] then Spaces(t)
    else EntryOk(es[0]) &&
         ((|es| == 1 && t == EntryText(es[0], []))
          || exists rest :: t == EntryText(es[0], [COMMA] + rest) && Writes(rest, es[1..]))
  }

  lemma {:induction false} SkipBefore(sp: Bytes, t: Bytes, st: PState, recs: seq<PairRec>, key: Bytes)
    requires Spaces(sp) && (st.WEq? || st.WDel?)
    ensures Parse(sp + t, st, recs, key) == Parse(t, st, recs, key)
    decreases |sp|
  {
    if sp == [] {
      assert sp + t == t;
    } else {
      assert IsSpace(sp[0]);
      assert (sp + t)[1..] == sp[1..] + t;
      SkipBefore(sp[1..], t, st, recs, key);
    }
  }

  /** Behind a word that was read, spaces make no difference. */
  lemma AfterSpaces(sp: Bytes, t: Bytes, st: PState, recs: seq<PairRec>, key: Bytes)
    requires Spaces(sp) && (st.WEq? || st.WDel?)
    ensures Parse(After(sp + t), st, recs, key) == Parse(t, st, recs, key)
  {
    SkipBefore(sp, t, st, recs, key);
  }

  lemma ReadKeyOf(e: Entry, t: Bytes, recs: seq<PairRec>, key: Bytes)
    requires EntryOk(e)
    ensures Parse(EntryText(e, t), WKey, recs, key) == Parse(ValueText(e, t), WVal, recs, Letters(e.key.ps))
  {
    var arrow := [EQUALS, GREATER] + ValueText(e, t);
    var rest := e.mid + arrow;
    SkipSpaces(e.before, Text(e.key) + rest, false);
    if e.mid == [] {
      assert rest == arrow;
    }
    ReadWord(e.key, rest, false);
    AfterSpaces(e.mid, arrow, WEq, recs, Letters(e.key.ps));
    SkipBefore(e.mid, arrow, WEq, recs, Letters(e.key.ps));
    ParseArrow(ValueText(e, t), recs, Letters(e.key.ps));
  }

  lemma ReadValOf(e: Entry, t: Bytes, recs: seq<PairRec>)
    requires EntryOk(e) && (t == [] || t[0] == COMMA)
    ensures Parse(ValueText(e, t), WVal, recs, Letters(e.key.ps)) ==
            Parse(t, WDel, recs + [RecOf(e)], Letters(e.key.ps))
  {
    var rest, key := e.after + t, Letters(e.key.ps);
    SkipSpaces(e.gap, Text(e.val) + rest, true);
    if e.after == [] {
      assert rest == t;
    }
    ReadWord(e.val, rest, true);
    NullWordIff(Letters(e.val.ps));
    AfterSpaces(e.after, t, WDel, recs + [RecOf(e)], key);
    SkipBefore(e.after, t, WDel, recs + [RecOf(e)], key);
  }

  /** Every text of the language is accepted and means its entries. */
  lemma {:induction false} WrittenIsRead(t: Bytes, es: seq<Entry>, recs: seq<PairRec>, key: Bytes)
    requires Writes(t, es)
    ensures Parse(t, WKey, recs, key) == Some(recs + RecsOf(es))
    decreases |es|
  {
    if es == [] {
      NoWordIff(t, false);
      assert recs + RecsOf(es) == recs;
    } else {
      var e, recs' := es[0], recs + [RecOf(es[0])];
      assert recs' + RecsOf(es[1..]) == recs + RecsOf(es);
      if rest: Bytes :| t == EntryText(e, [COMMA] + rest) && Writes(rest, es[1..]) {
        ReadKeyOf(e, [COMMA] + rest, recs, key);
        ReadValOf(e, [COMMA] + rest, recs);
        assert ([COMMA] + rest)[1..] == rest;
        WrittenIsRead(rest, es[1..], recs', Letters(e.key.ps));
      } else {
        ReadKeyOf(e, [], recs, key);
        ReadValOf(e, [], recs);
        assert RecsOf(es[1..]) == [] && recs' + [] == recs';
      }
    }
  }

  // ------------------------------------------------------- nothing else is read

  lemma {:induction false} ArrowWritten(t: Bytes, recs: seq<PairRec>, key: Bytes) returns (mid: Bytes, rest: Bytes)
    requires Parse(t, WEq, recs, key).Some?
    ensures Spaces(mid) && t == mid + ([EQUALS, GREATER] + rest)
    decreases |t|
  {
    if t[0] == EQUALS {
      mid, rest := [], t[2..];
      assert t == [t[0], t[1]] + t[2..];
    } else {
      mid, rest := ArrowWritten(t[1..], recs, key);
      assert t == [t[0]] + t[1..] == ([t[0]] + mid) + ([EQUALS, GREATER] + rest);
      mid := [t[0]] + mid;
    }
  }

  lemma {:induction false} EndWritten(t: Bytes, recs: seq<PairRec>, key: Bytes) returns (after: Bytes, rest: Bytes)
    requires Parse(t, WDel, recs, key).Some?
    ensures Spaces(after) && t == after + rest && (rest == [] || rest[0] == COMMA)
    decreases |t|
  {
    if t == [] || t[0] == COMMA {
      after, rest := [], t;
    } else {
      after, rest := EndWritten(t[1..], recs, key);
      assert t == [t[0]] + t[1..] == ([t[0]] + after) + rest;
      after := [t[0]] + after;
    }
  }

  /** Spaces and then rest, whether or not a space was used up by a word before. */
  lemma Regrow(t: Bytes, sp: Bytes, rest: Bytes) returns (sp': Bytes)
    requires Spaces(sp) && After(t) == sp + rest
    ensures Spaces(sp') && t == sp' + rest
  {
    if t != [] && IsSpace(t[0]) {
      assert t == [t[0]] + t[1..] == ([t[0]] + sp) + rest;
      sp' := [t[0]] + sp;
    } else {
      sp' := sp;
    }
  }

  lemma KeyWritten(t: Bytes, recs: seq<PairRec>, key: Bytes)
    returns (before: Bytes, k: Token, mid: Bytes, rest: Bytes)
    requires Parse(t, WKey, recs, key).Some? && !Spaces(t)
    ensures Spaces(before) && TokenOk(k, false) && |Letters(k.ps)| <= MAX_LEN && Spaces(mid)
    ensures t == before + (Text(k) + (mid + ([EQUALS, GREATER] + rest)))
    ensures Parse(t, WKey, recs, key) == Parse(rest, WVal, recs, Letters(k.ps))
  {
    NoWordIff(t, false);
    var tail;
    before, k, tail := WrittenWord(t, false);
    SkipSpaces(before, Text(k) + tail, false);
    ReadWord(k, tail, false);
    var left := if k.Bare? then After(tail) else tail;
    mid, rest := ArrowWritten(left, recs, Letters(k.ps));
    SkipBefore(mid, [EQUALS, GREATER] + rest, WEq, recs, Letters(k.ps));
    ParseArrow(rest, recs, Letters(k.ps));
    if k.Bare? {
      mid := Regrow(tail, mid, [EQUALS, GREATER] + rest);
    }
  }

  lemma ValWritten(t: Bytes, recs: seq<PairRec>, key: Bytes) returns (gap: Bytes, k: Token, after: Bytes, rest: Bytes)
    requires Parse(t, WVal, recs, key).Some?
    ensures Spaces(gap) && TokenOk(k, true) && |Letters(k.ps)| <= MAX_LEN && Spaces(after)
    ensures t == gap + (Text(k) + (after + rest)) && (rest == [] || rest[0] == COMMA)
  {
    var tail;
    gap, k, tail := WrittenWord(t, true);
    SkipSpaces(gap, Text(k) + tail, true);
    ReadWord(k, tail, true);
    var left := if k.Bare? then After(tail) else tail;
    after, rest := EndWritten(left, recs + [MakeRec(key, Letters(k.ps), k.InQuotes?)], key);
    if k.Bare? {
      after := Regrow(tail, after, rest);
    }
  }

  /** Every text that is accepted is one of the language. */
  lemma {:induction false} ReadIsWritten(t: Bytes, recs: seq<PairRec>, key: Bytes) returns (es: seq<Entry>)
    requires Parse(t, WKey, recs, key).Some?
    ensures Writes(t, es)
    decreases |t|
  {
    if Spaces(t) {
      es := [];
    } else {
      var before, k, mid, vt := KeyWritten(t, recs, key);
      var gap, v, after, rest := ValWritten(vt, recs, Letters(k.ps));
      var e := Entry(before, k, mid, gap, v, after);
      assert t == EntryText(e, rest);
      if rest == [] {
        es := [e];
      } else {
        ReadValOf(e, rest, recs);
        es := ReadIsWritten(rest[1..], recs + [RecOf(e)], Letters(k.ps));
        assert rest == [COMMA] + rest[1..];
        assert ([e] + es)[1..] == es;
        es := [e] + es;
      }
    }
  }

  /** The parser accepts exactly the texts of the language, and what it makes of a
      text are the entries that it consists of, however it is taken apart. */
  lemma ParseIff(t: Bytes)
    ensures Parse(t, WKey, [], []).Some? <==> exists es: seq<Entry> :: Writes(t, es)
    ensures forall es: seq<Entry> :: Writes(t, es) ==> Parse(t, WKey, [], []) == Some(RecsOf(es))
  {
    if Parse(t, WKey, [], []).Some? {
      var es := ReadIsWritten(t, [], []);
      assert Writes(t, es);
    }
    forall es: seq<Entry> | Writes(t, es)
      ensures Parse(t, WKey, [], []) == Some(RecsOf(es))
    {
      WrittenIsRead(t, es, [], []);
      assert [] + RecsOf(es) == RecsOf(es);
    }
  }

  /** The spaces are the blank, the tab, the newline, the vertical tab, the form feed
      and the carriage return. */
  lemma SpacesAre(c: Byte)
    ensures IsSpace(c) <==> c in [32, 9, 10, 11, 12, 13]
  {
  }

  // ------------------------------------------------------------------ printing

  /** What is printed of a pair: both strings in quotes, an arrow, and a null as a
      bare NULL. */
  lemma {:induction false} PrintedIsQuoted(b: Bytes)
    ensures exists ps: seq<Piece> :: QuotedPieces(ps) && Letters(ps) == b && Quoted(b) == Text(InQuotes(ps))
                                     && forall i :: 0 <= i < |ps| ==> (ps[i].escaped <==> ps[i].c in [QUOTE, BACKSLASH])
  {
    var ps := EscapedPieces(b);
    assert Quoted(b) == Text(InQuotes(ps));
  }

  lemma {:induction false} EscapedPieces(b: Bytes) returns (ps: seq<Piece>)
    ensures QuotedPieces(ps) && Letters(ps) == b && Escape(b) == WriteAll(ps)
    ensures forall i :: 0 <= i < |ps| ==> (ps[i].escaped <==> ps[i].c in [QUOTE, BACKSLASH])
  {
    ps := [];
    if b != [] {
      var rest := EscapedPieces(b[1..]);
      var p := Piece(b[0], b[0] == QUOTE || b[0] == BACKSLASH);
      ps := [p] + rest;
      assert ps[1..] == rest;
      assert b == [b[0]] + b[1..];
    }
  }

  /** For one, the text of two pairs: "a"=>"1", "b"=>NULL. */
  lemma PrintedTwo()
    ensures PrintFrom([Pair([97], Some([49])), Pair([98], None)], 0)
            == [34, 97, 34, 61, 62, 34, 49, 34, 44, 32, 34, 98, 34, 61, 62, 78, 85, 76, 76]
  {
    var ps := [Pair([97], Some([49])), Pair([98], None)];
    QuotedPlain(97);
    QuotedPlain(98);
    QuotedPlain(49);
    hide Quoted;
    var a: Bytes, b: Bytes := [34, 97, 34, 61, 62, 34, 49, 34], [34, 98, 34, 61, 62, 78, 85, 76, 76];
    assert PrintPair(ps[0]) == a;
    assert PrintPair(ps[1]) == b;
    hide PrintPair;
    assert PrintFrom(ps, 1) == b;
    assert PrintFrom(ps, 0) == a + [COMMA, SPACE] + b;
    hide PrintFrom;
  }

  lemma QuotedPlain(c: Byte)
    requires c != QUOTE && c != BACKSLASH
    ensures Quoted([c]) == [QUOTE, c, QUOTE]
  {
    assert [c][1..] == [] && Escape([c]) == [c];
  }

  // ------------------------------------------------------------- plain pairs

  /** No space, comma, quote, backslash or equals sign. */
  predicate PlainByte(c: Byte) {
    !IsSpace(c) && c != COMMA && c != QUOTE && c != BACKSLASH && c != EQUALS
  }

  ghost predicate PlainWord(w: Bytes) {
    w != [] && |w| <= MAX_LEN && forall i :: 0 <= i < |w| ==> PlainByte(w[i])
  }

  function AsPieces(w: Bytes): seq<Piece> {
    if w == [] then [] else [Piece(w[0], false)] + AsPieces(w[1..])
  }

  lemma {:induction false} PiecesOf(w: Bytes, value: bool)
    requires forall i :: 0 <= i < |w| ==> PlainByte(w[i])
    ensures WriteAll(AsPieces(w)) == w == Letters(AsPieces(w)) && LaterPieces(AsPieces(w), value)
  {
    if w != [] {
      PiecesOf(w[1..], value);
      assert AsPieces(w)[1..] == AsPieces(w[1..]);
      assert w == [w[0]] + w[1..];
      assert LaterPiece(AsPieces(w)[0], value);
    }
  }

  lemma PlainToken(w: Bytes, value: bool)
    requires PlainWord(w)
    ensures TokenOk(Bare(AsPieces(w)), value) && Text(Bare(AsPieces(w))) == w == Letters(AsPieces(w))
  {
    PiecesOf(w, value);
    PiecesOf(w[1..], value);
    assert AsPieces(w)[1..] == AsPieces(w[1..]);
  }

  /** A plain key, an arrow and a plain word are one pair, of the key and the word,
      or of the key and a null if the word is null in some spelling. */
  lemma PlainPair(k: Bytes, w: Bytes)
    requires PlainWord(k) && PlainWord(w)
    ensures var r := Parse(k + [EQUALS, GREATER] + w, WKey, [], []);
            r.Some? && AsPairs(r.value) == [Pair(k, if SpellsNull(w) then None else Some(w))]
  {
    PlainToken(k, false);
    PlainToken(w, true);
    var e := Entry([], Bare(AsPieces(k)), [], [], Bare(AsPieces(w)), []);
    var t := k + [EQUALS, GREATER] + w;
    assert t == EntryText(e, []);
    assert Writes(t, [e]);
    WrittenIsRead(t, [e], [], []);
    assert RecsOf([e]) == [RecOf(e)];
  }
}
