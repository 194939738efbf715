/** The text form of hstore: the two parser automata and the printer
    (contrib/hstore/hstore_io.c).  Text is the content of a C string, so it has
    no NUL byte; the terminator is its end. */
module HStoreText {
  import opened Wrappers
  import opened HStoreBase
  import opened HStoreUnique

  const QUOTE: Byte := 34
  const COMMA: Byte := 44
  const EQUALS: Byte := 61
  const GREATER: Byte := 62
  const BACKSLASH: Byte := 92
  const SPACE: Byte := 32
  const MAX_LEN: nat := 0x3FFF_FFFF

  ghost predicate NoNul(b: Bytes) {
    forall i :: 0 <= i < |b| ==> b[i] != 0
  }

  /** isspace in the C locale. */
  predicate IsSpace(c: Byte) {
    c == 32 || 9 <= c <= 13
  }

  function ToLower(c: Byte): Byte {
    if 65 <= c <= 90 then c + 32 else c
  }

  /** pg_strcasecmp(word, "null") == 0. */
  predicate IsNullWord(w: Bytes) {
    && |w| == 4 && ToLower(w[0]) == 110 && ToLower(w[1]) == 117
    && ToLower(w[2]) == 108 && ToLower(w[3]) == 108
  }

  // ------------------------------------------------------------ the automata

  datatype GVState = WaitVal | InVal | InEscVal | WaitEscIn | WaitEscEscIn

  /** No more words, a syntax error, or a word and the text behind it. */
  datatype GV = NoVal | Bad | Val(word: Bytes, escaped: bool, rest: Bytes)

  /** get_val on the rest of the text. */
  function Word(t: Bytes, st: GVState, word: Bytes, escaped: bool, ignoreeq: bool): (r: GV)
    ensures r.Val? ==> |r.rest| <= |t| && (st.WaitVal? ==> |r.rest| < |t|)
    decreases |t|
  {
    if t == [] then
      match st
      case WaitVal => NoVal
      case InVal => Val(word, escaped, [])
      case _ => Bad
    else
      var c, u := t[0], t[1..];
      match st
      case WaitVal =>
        if c == QUOTE then Word(u, InEscVal, word, true, ignoreeq)
        else if c == EQUALS && !ignoreeq then Bad
        else if c == BACKSLASH then Word(u, WaitEscIn, word, escaped, ignoreeq)
        else if !IsSpace(c) then Word(u, InVal, word + [c], escaped, ignoreeq)
        else Word(u, WaitVal, word, escaped, ignoreeq)
      case InVal =>
        if c == BACKSLASH then Word(u, WaitEscIn, word, escaped, ignoreeq)
        else if c == EQUALS && !ignoreeq then Val(word, escaped, t)
        else if c == COMMA && ignoreeq then Val(word, escaped, t)
        else if IsSpace(c) then Val(word, escaped, u)
        else Word(u, InVal, word + [c], escaped, ignoreeq)
      case InEscVal =>
        if c == BACKSLASH then Word(u, WaitEscEscIn, word, escaped, ignoreeq)
        else if c == QUOTE then Val(word, escaped, u)
        else Word(u, InEscVal, word + [c], escaped, ignoreeq)
      case WaitEscIn => Word(u, InVal, word + [c], escaped, ignoreeq)
      case WaitEscEscIn => Word(u, InEscVal, word + [c], escaped, ignoreeq)
  }

  datatype PState = WKey | WEq | WGt | WVal | WDel

  function MakeRec(key: Bytes, w: Bytes, escaped: bool): PairRec {
    PairRec(key, w, !escaped && IsNullWord(w), true)
  }

  /** parse_hstore on the rest of the text: the pairs, or None for an error. */
  function Parse(t: Bytes, st: PState, recs: seq<PairRec>, key: Bytes): Option<seq<PairRec>>
    decreases |t|
  {
    match st
    case WKey =>
      (match Word(t, WaitVal, [], false, false)
       case NoVal => Some(recs)
       case Bad => None
       case Val(w, _, rest) => if |w| > MAX_LEN then None else Parse(rest, WEq, recs, w))
    case WEq =>
      if t == [] then None
      else if t[0] == EQUALS then Parse(t[1..], WGt, recs, key)
      else if IsSpace(t[0]) then Parse(t[1..], WEq, recs, key)
      else None
    case WGt =>
      if t == [] || t[0] != GREATER then None
      else Parse(t[1..], WVal, recs, key)
    case WVal =>
      (match Word(t, WaitVal, [], false, true)
       case NoVal => None
       case Bad => None
       case Val(w, escaped, rest) =>
         if |w| > MAX_LEN then None else Parse(rest, WDel, recs + [MakeRec(key, w, escaped)], key))
    case WDel =>
      if t == [] then Some(recs)
      else if t[0] == COMMA then Parse(t[1..], WKey, recs, key)
      else if IsSpace(t[0]) then Parse(t[1..], WDel, recs, key)
      else None
  }

  // ------------------------------------------------------ the parser in place

  /** The parser: a text with a moving pointer, a word buffer that is doubled on
      demand and a pair array that is doubled on demand. */
  class HSParser {
    const begin: Bytes
    var ptr: nat
    var word: Bytes
    var wordlen: nat
    var pairs: seq<PairRec>
    var plen: nat

    constructor (text: Bytes)
      ensures begin == text && ptr == 0 && pairs == [] && plen == 16
    {
      begin, ptr, word, wordlen, pairs, plen := text, 0, [], 0, [], 16;
    }

    /** The byte under the pointer; the terminator reads as NUL. */
    function Here(): Byte
      requires ptr <= |begin|
      reads this
    {
      if ptr < |begin| then begin[ptr] else 0
    }

    /** RESIZEPRSBUF and the write behind it: the write is inside the buffer. */
    method Put(c: Byte)
      requires |word| < wordlen && wordlen >= 32
      modifies this`word, this`wordlen
      ensures word == old(word) + [c] && |word| < wordlen && wordlen >= 32
    {
      if |word| + 1 >= wordlen {
        wordlen := wordlen * 2;
      }
      assert |word| < wordlen;
      word := word + [c];
    }

    /** What the automaton makes of the rest of the text from here. */
    ghost function FromHere(st: GVState, escaped: bool, ignoreeq: bool): GV
      requires ptr <= |begin|
      reads this
    {
      Word(begin[ptr..], st, word, escaped, ignoreeq)
    }

    /** The result r, with the pointer on the last byte used up, is the outcome g. */
    ghost predicate Outcome(r: GV, g: GV)
      reads this
    {
      && (r.Val? ==> ptr < |begin| && r.word == word && |word| < wordlen && wordlen >= 32)
      && g == (if r.Val? then Val(r.word, r.escaped, begin[ptr + 1..]) else r)
    }

    /** The end of the text. */
    method AtEnd(st: GVState, escaped: bool, ignoreeq: bool) returns (r: GV)
      requires ptr == |begin| && (st.InVal? ==> ptr > 0) && |word| < wordlen && wordlen >= 32
      modifies this`ptr
      ensures Outcome(r, old(FromHere(st, escaped, ignoreeq)))
      ensures if st.InVal? then ptr == old(ptr) - 1 else ptr == old(ptr) && !r.Val?
    {
      match st {
        case WaitVal => return NoVal;
        case InVal =>
          ptr := ptr - 1;
          return Val(word, escaped, []);
        case _ => return Bad;
      }
    }

    /** One byte of the text: a result, or the next state. */
    method OneByte(st: GVState, escaped: bool, ignoreeq: bool) returns (r: Option<GV>, st': GVState, escaped': bool)
      requires ptr < |begin| && NoNul(begin) && (st.InVal? ==> ptr > 0) && |word| < wordlen && wordlen >= 32
      modifies this`ptr, this`word, this`wordlen
      ensures r.Some? ==> Outcome(r.value, old(FromHere(st, escaped, ignoreeq)))
      ensures r.Some? ==> old(ptr) - (if st.InVal? then 1 else 0) <= ptr <= old(ptr)
      ensures r.None? ==> ptr == old(ptr) + 1 && |word| < wordlen && wordlen >= 32
      ensures r.None? ==> FromHere(st', escaped', ignoreeq) == old(FromHere(st, escaped, ignoreeq))
    {
      var c := Here();
      assert begin[ptr..][0] == c && begin[ptr..][1..] == begin[ptr + 1..];
      r, st', escaped' := None, st, escaped;
      match st {
        case WaitVal =>
          if c == QUOTE {
            escaped', st' := true, InEscVal;
          } else if c == EQUALS && !ignoreeq {
            return Some(Bad), st, escaped;
          } else if c == BACKSLASH {
            st' := WaitEscIn;
          } else if !IsSpace(c) {
            Put(c);
            st' := InVal;
          }
        case InVal =>
          if c == BACKSLASH {
            st' := WaitEscIn;
          } else if (c == EQUALS && !ignoreeq) || (c == COMMA && ignoreeq) {
            ptr := ptr - 1;
            return Some(Val(word, escaped, [])), st, escaped;
          } else if IsSpace(c) {
            return Some(Val(word, escaped, [])), st, escaped;
          } else {
            Put(c);
          }
        case InEscVal =>
          if c == BACKSLASH {
            st' := WaitEscEscIn;
          } else if c == QUOTE {
            return Some(Val(word, escaped, [])), st, escaped;
          } else {
            Put(c);
          }
        case WaitEscIn =>
          Put(c);
          st' := InVal;
        case WaitEscEscIn =>
          Put(c);
          st' := InEscVal;
      }
      ptr := ptr + 1;
    }

    /** get_val: reads no byte behind the terminator and writes none behind the
        buffer.  It leaves the pointer on the last byte it used up. */
    method GetVal(ignoreeq: bool) returns (r: GV)
      requires ptr <= |begin| && NoNul(begin)
      modifies this`ptr, this`word, this`wordlen
      ensures r.Val? ==> old(ptr) <= ptr < |begin|
      ensures Word(begin[old(ptr)..], WaitVal, [], false, ignoreeq)
           == if r.Val? then Val(r.word, r.escaped, begin[ptr + 1..]) else r
      ensures r.Val? ==> r.word == word && |word| < wordlen && wordlen >= 32
    {
      ghost var goal := Word(begin[ptr..], WaitVal, [], false, ignoreeq);
      var st, escaped := WaitVal, false;
      wordlen, word := 32, [];
      while ptr < |begin|
        invariant old(ptr) <= ptr <= |begin| && (!st.WaitVal? ==> old(ptr) < ptr)
        invariant |word| < wordlen && wordlen >= 32
        invariant goal == FromHere(st, escaped, ignoreeq)
        decreases |begin| - ptr
      {
        var done;
        done, st, escaped := OneByte(st, escaped, ignoreeq);
        if done.Some? {
          return done.value;
        }
      }
      r := AtEnd(st, escaped, ignoreeq);
    }

    /** Room in the pair array for one more pair. */
    method GrowPairs()
      requires |pairs| <= plen && plen >= 16
      modifies this`plen
      ensures |pairs| < plen && plen >= 16
    {
      if |pairs| >= plen {
        plen := plen * 2;
      }
    }

    /** State WKey: a key, the end of the text, or an error. */
    method ReadKey(ghost recs: seq<PairRec>, ghost key: Bytes) returns (r: GV)
      requires ptr <= |begin| && NoNul(begin)
      modifies this`ptr, this`word, this`wordlen
      ensures r.Val? ==> old(ptr) <= ptr < |begin|
      ensures Parse(begin[old(ptr)..], WKey, recs, key) ==
              if r.Val? then Parse(begin[ptr + 1..], WEq, recs, r.word)
              else if r.NoVal? then Some(recs) else None
    {
      r := GetVal(false);
      if r.Val? && |r.word| > MAX_LEN {
        r := Bad;
      }
    }

    /** State WVal: a value, or an error.  An unquoted word of four letters is
        closed with a NUL byte, inside its buffer, before it is compared. */
    method ReadVal(key: Bytes, ghost recs: seq<PairRec>) returns (r: Option<PairRec>)
      requires ptr <= |begin| && NoNul(begin)
      modifies this`ptr, this`word, this`wordlen
      ensures r.Some? ==> old(ptr) <= ptr < |begin|
      ensures Parse(begin[old(ptr)..], WVal, recs, key) ==
              if r.Some? then Parse(begin[ptr + 1..], WDel, recs + [r.value], key) else None
    {
      var v := GetVal(true);
      if !v.Val? || |v.word| > MAX_LEN {
        return None;
      }
      assert |word| == 4 ==> 4 < wordlen;
      r := Some(MakeRec(key, v.word, v.escaped));
    }

    /** The states between words look at one byte.  On stop the outcome is a
        finished text in WDel and an error otherwise. */
    method Separator(st: PState, ghost recs: seq<PairRec>, ghost key: Bytes) returns (stop: bool, st': PState)
      requires ptr <= |begin| && NoNul(begin) && (st.WEq? || st.WGt? || st.WDel?)
      ensures stop ==> Parse(begin[ptr..], st, recs, key) == if st'.WDel? then Some(recs) else None
      ensures !stop ==> ptr < |begin| && Parse(begin[ptr..], st, recs, key) == Parse(begin[ptr + 1..], st', recs, key)
      ensures !stop ==> if st.WDel? then st'.WDel? || st'.WKey? else !st'.WDel? && !st'.WKey?
    {
      var c := Here();
      assert ptr < |begin| ==> begin[ptr..][0] == c && begin[ptr..][1..] == begin[ptr + 1..] && c != 0;
      match st {
        case WEq =>
          if c == EQUALS {
            return false, WGt;
          }
          return !(c != 0 && IsSpace(c)), WEq;
        case WGt =>
          return c != GREATER, if c == GREATER then WVal else WGt;
        case WDel =>
          if c == COMMA {
            return false, WKey;
          }
          if c == 0 || IsSpace(c) {
            return c == 0, WDel;
          }
          return true, WEq;
      }
    }

    /** parse_hstore: the pointer advances in every round, a pair is stored only
        where the array has room, and the result is the one of the automaton. */
    method ParseHStore() returns (r: Option<seq<PairRec>>)
      requires ptr == 0 && pairs == [] && plen == 16 && NoNul(begin)
      modifies this
      ensures r == Parse(begin, WKey, [], [])
    {
      var st := WKey;
      var key: Bytes := [];
      assert begin[0..] == begin;
      while true
        invariant ptr <= |begin| && |pairs| <= plen && plen >= 16
        invariant !st.WKey? && !st.WDel? ==> |pairs| < plen
        invariant Parse(begin, WKey, [], []) == Parse(begin[ptr..], st, pairs, key)
        decreases |begin| - ptr
      {
        if st == WKey {
          var v := ReadKey(pairs, key);
          if !v.Val? {
            return if v.NoVal? then Some(pairs) else None;
          }
          GrowPairs();
          key, st := v.word, WEq;
        } else if st == WVal {
          var v := ReadVal(key, pairs);
          if v.None? {
            return None;
          }
          pairs, st := pairs + [v.value], WDel;
        } else {
          var stop;
          stop, st := Separator(st, pairs, key);
          if stop {
            return if st.WDel? then Some(pairs) else None;
          }
        }
        ptr := ptr + 1;
      }
    }
  }

  // ------------------------------------------------------------- the printer

  /** cpw: quotes and backslashes get a backslash in front. */
  function EscapeByte(c: Byte): (r: Bytes)
    ensures 1 <= |r| <= 2
  {
    if c == QUOTE || c == BACKSLASH then [BACKSLASH, c] else [c]
  }

  function Escape(b: Bytes): (r: Bytes)
    ensures |r| <= 2 * |b|
  {
    if b == [] then [] else EscapeByte(b[0]) + Escape(b[1..])
  }

  function Quoted(b: Bytes): Bytes {
    [QUOTE] + Escape(b) + [QUOTE]
  }

  const NULL_WORD: Bytes := [78, 85, 76, 76]

  function PrintVal(v: Option<Bytes>): Bytes {
    if v.None? then NULL_WORD else Quoted(v.value)
  }

  function PrintPair(p: Pair): Bytes {
    Quoted(p.key) + [EQUALS, GREATER] + PrintVal(p.val)
  }

  /** The text of the pairs from i on. */
  ghost function PrintFrom(ps: seq<Pair>, i: nat): Bytes
    requires i <= |ps|
    decreases |ps| - i
  {
    if i == |ps| then []
    else if i + 1 == |ps| then PrintPair(ps[i])
    else PrintPair(ps[i]) + [COMMA, SPACE] + PrintFrom(ps, i + 1)
  }

  // ------------------------------------------------------------ the round trip

  /** Inside quotes the parser reads back what the printer escaped. */
  lemma {:induction false} ReadEscaped(b: Bytes, t: Bytes, word: Bytes, ignoreeq: bool)
    requires NoNul(b)
    ensures Word(Escape(b) + [QUOTE] + t, InEscVal, word, true, ignoreeq) == Val(word + b, true, t)
  {
    var s := Escape(b) + [QUOTE] + t;
    if b == [] {
      assert s == [QUOTE] + t && s[1..] == t;
      assert word + b == word;
    } else {
      var u := Escape(b[1..]) + [QUOTE] + t;
      ReadEscaped(b[1..], t, word + [b[0]], ignoreeq);
      assert word + [b[0]] + b[1..] == word + b;
      if b[0] == QUOTE || b[0] == BACKSLASH {
        assert s == [BACKSLASH, b[0]] + u;
        assert s[1..] == [b[0]] + u && s[1..][1..] == u;
      } else {
        assert s == [b[0]] + u && s[1..] == u;
      }
    }
  }

  lemma ReadQuoted(b: Bytes, t: Bytes, ignoreeq: bool)
    requires NoNul(b)
    ensures Word(Quoted(b) + t, WaitVal, [], false, ignoreeq) == Val(b, true, t)
  {
    var s := Quoted(b) + t;
    assert s[1..] == Escape(b) + [QUOTE] + t;
    ReadEscaped(b, t, [], ignoreeq);
    assert [] + b == b;
  }

  lemma ReadLetter(c: Byte, t: Bytes, word: Bytes)
    requires c == 76 || c == 85
    ensures Word([c] + t, InVal, word, false, true) == Word(t, InVal, word + [c], false, true)
  {
    assert ([c] + t)[1..] == t;
  }

  /** An unquoted NULL ends at the comma or at the end of the text. */
  lemma ReadNull(t: Bytes)
    requires t == [] || t[0] == COMMA
    ensures Word(NULL_WORD + t, WaitVal, [], false, true) == Val(NULL_WORD, false, t)
  {
    var s := NULL_WORD + t;
    var last := [76] + t;
    var two := [76] + last;
    var rest := [85] + two;
    assert s == [78] + rest && s[1..] == rest;
    ReadLetter(85, two, [78]);
    ReadLetter(76, last, [78] + [85]);
    ReadLetter(76, t, [78] + [85] + [76]);
    assert [78] + [85] + [76] + [76] == NULL_WORD;
    assert Word(t, InVal, NULL_WORD, false, true) == Val(NULL_WORD, false, t);
    var w: Bytes := [78];
    assert [] + w == w;
    assert Word(s, WaitVal, [], false, true) == Word(rest, InVal, w, false, true);
  }

  /** What the parser makes of a printed pair. */
  function Reread(p: Pair): PairRec {
    if p.val.None? then PairRec(p.key, NULL_WORD, true, true) else PairRec(p.key, p.val.value, false, true)
  }

  ghost predicate Printable(p: Pair) {
    && NoNul(p.key) && |p.key| <= MAX_LEN
    && (p.val.Some? ==> NoNul(p.val.value) && |p.val.value| <= MAX_LEN)
  }

  lemma ParseVal(p: Pair, t: Bytes, recs: seq<PairRec>)
    requires Printable(p) && (t == [] || t[0] == COMMA)
    ensures Parse(PrintVal(p.val) + t, WVal, recs, p.key) == Parse(t, WDel, recs + [Reread(p)], p.key)
  {
    if p.val.None? {
      ReadNull(t);
    } else {
      ReadQuoted(p.val.value, t, true);
    }
  }

  lemma PairThen(p: Pair, t: Bytes)
    ensures PrintPair(p) + t == Quoted(p.key) + ([EQUALS, GREATER] + (PrintVal(p.val) + t))
  {
  }

  /** The parser goes past the arrow between key and value. */
  lemma ParseArrow(v: Bytes, recs: seq<PairRec>, key: Bytes)
    ensures Parse([EQUALS, GREATER] + v, WEq, recs, key) == Parse(v, WVal, recs, key)
  {
    var e := [EQUALS, GREATER] + v;
    assert e[1..] == [GREATER] + v && e[1..][1..] == v;
    assert Parse(e, WEq, recs, key) == Parse(e[1..], WGt, recs, key);
  }

  lemma ParsePair(p: Pair, t: Bytes, recs: seq<PairRec>, key: Bytes)
    requires Printable(p) && (t == [] || t[0] == COMMA)
    ensures Parse(PrintPair(p) + t, WKey, recs, key) == Parse(t, WDel, recs + [Reread(p)], p.key)
  {
    var v := PrintVal(p.val) + t;
    PairThen(p, t);
    ReadQuoted(p.key, [EQUALS, GREATER] + v, false);
    ParseArrow(v, recs, p.key);
    ParseVal(p, t, recs);
  }

  /** A space in front of a key is skipped. */
  lemma SkipSpace(t: Bytes, recs: seq<PairRec>, key: Bytes)
    ensures Parse([SPACE] + t, WKey, recs, key) == Parse(t, WKey, recs, key)
  {
    assert ([SPACE] + t)[1..] == t;
  }

  function RereadAll(ps: seq<Pair>): seq<PairRec> {
    seq(|ps|, i requires 0 <= i < |ps| => Reread(ps[i]))
  }

  /** Parsing a printed pair that others follow. */
  lemma ParseFirst(p: Pair, rest: Bytes, recs: seq<PairRec>, key: Bytes)
    requires Printable(p)
    ensures Parse(PrintPair(p) + [COMMA, SPACE] + rest, WKey, recs, key) == Parse(rest, WKey, recs + [Reread(p)], p.key)
  {
    var u := [SPACE] + rest;
    var t := [COMMA] + u;
    assert PrintPair(p) + [COMMA, SPACE] + rest == PrintPair(p) + t;
    ParsePair(p, t, recs, key);
    assert t[1..] == u;
    SkipSpace(rest, recs + [Reread(p)], p.key);
  }

  /** Parsing the printed form of a list gives the list back, pair by pair:
      escapes, a null against the string NULL, and the empty list included. */
  lemma {:induction false} ParsePrinted(ps: seq<Pair>, i: nat, recs: seq<PairRec>, key: Bytes)
    requires i <= |ps| && forall k :: 0 <= k < |ps| ==> Printable(ps[k])
    ensures Parse(PrintFrom(ps, i), WKey, recs, key) == Some(recs + RereadAll(ps[i..]))
    decreases |ps| - i
  {
    if i == |ps| {
      assert recs + RereadAll(ps[i..]) == recs;
    } else {
      var recs' := recs + [Reread(ps[i])];
      assert recs' + RereadAll(ps[i + 1..]) == recs + RereadAll(ps[i..]);
      if i + 1 == |ps| {
        ParsePair(ps[i], [], recs, key);
        assert PrintPair(ps[i]) + [] == PrintPair(ps[i]);
        assert recs' + RereadAll(ps[i + 1..]) == recs';
      } else {
        ParseFirst(ps[i], PrintFrom(ps, i + 1), recs, key);
        ParsePrinted(ps, i + 1, recs', ps[i].key);
      }
    }
  }
}
