/** Reading back what was written. */
module UrlStateLaws {
  import opened Option
  import opened PercentEncoding
  import opened UrlState

  /** What is left of a state once it has been through the address bar. */
  function Normalise(s: ViewState): ViewState {
    ViewState(Or(s.fromIso, DEFAULT_FROM), Or(s.toIso, DEFAULT_TO), ParseMode(s.mode), Or(s.bucket, AUTO),
              ParseFocus(FocusText(s)))
  }

  /** A state that loses nothing: every part present, a mode the view knows, and a focus that is complete and
      whose kind has no colon. */
  predicate Canonical(s: ViewState) {
    && s.fromIso != [] && s.toIso != [] && s.bucket != []
    && (s.mode == LIVE || s.mode == REPLAY)
    && (s.focus.Some? ==> s.focus.value.kind != [] && COLON !in s.focus.value.kind && s.focus.value.hash != [])
  }

  lemma {:induction false} SplitJoin(parts: seq<Text>, c: CodeUnit)
    requires parts != [] && forall part :: part in parts ==> c !in part
    ensures Split(Join(parts, c), c) == parts
  {
    assert parts[0] in parts;
    if |parts| > 1 {
      SplitFirst(parts[0], c, Join(parts[1..], c));
      hide Split;
      SplitJoin(parts[1..], c);
      assert parts == [parts[0]] + parts[1..];
    } else {
      assert Join(parts, c) == parts[0];
    }
  }

  lemma SplitFirst(before: Text, c: CodeUnit, after: Text)
    requires c !in before
    ensures Split(before + [c] + after, c) == [before] + Split(after, c)
  {
    FirstIs(before, c, after);
    var s := before + [c] + after;
    assert s[..|before|] == before && s[|before| + 1..] == after;
  }

  lemma FirstIs(before: Text, c: CodeUnit, after: Text)
    requires c !in before
    ensures IndexOf(before + [c] + after, c) == Some(|before|)
  {
    var s := before + [c] + after;
    assert s[|before|] == c;
    assert forall i :: 0 <= i < |before| ==> s[i] == before[i];
  }

  /** A key the parser reads back as it stands. */
  predicate PlainKey(key: Text) {
    key != [] && forall i :: 0 <= i < |key| ==> Unreserved(key[i])
  }

  /** A printed parameter parses to itself and never runs into the next one. */
  lemma ParsePrint(p: Param)
    requires PlainKey(p.key) && Print(p).Some?
    ensures ParsePair(Print(p).value) == p && Print(p).value != [] && AMPERSAND !in Print(p).value
  {
    var v := Encode(p.value).value;
    EncodePlain(p.value);
    DecodeEncode(p.value);
    DecodeLiteral(p.key);
    FirstIs(p.key, EQUALS, v);
    var t := p.key + [EQUALS] + v;
    assert t[..|p.key|] == p.key && t[|p.key| + 1..] == v;
  }

  function MapOf(ps: seq<Param>): map<Text, Text> {
    if ps == [] then map[] else MapOf(ps[..|ps| - 1])[ps[|ps| - 1].key := ps[|ps| - 1].value]
  }

  lemma {:induction false} ParamsPrintAll(ps: seq<Param>)
    requires PrintAll(ps).Some? && forall p :: p in ps ==> PlainKey(p.key)
    ensures Params(PrintAll(ps).value) == MapOf(ps)
    ensures forall part :: part in PrintAll(ps).value ==> AMPERSAND !in part
  {
    hide Print, ParsePair, PlainKey;
    if ps != [] {
      var init, last := ps[..|ps| - 1], ps[|ps| - 1];
      ParamsPrintAll(init);
      ParsePrint(last);
      var parts := PrintAll(ps).value;
      assert parts == PrintAll(init).value + [Print(last).value];
      assert parts[..|parts| - 1] == PrintAll(init).value;
    }
  }

  lemma {:induction false} MapOfAppend(ps: seq<Param>, key: Text, value: Text, k: Text)
    ensures Get(MapOf(ps + Piece(key, value)), k) == if k == key && value != [] then value else Get(MapOf(ps), k)
  {
    if value != [] {
      var qs := ps + [Param(key, value)];
      assert qs[..|qs| - 1] == ps;
    } else {
      assert ps + [] == ps;
    }
  }

  lemma KeysDiffer()
    ensures PlainKey(FROM) && PlainKey(TO) && PlainKey(MODE) && PlainKey(BUCKET) && PlainKey(FOCUS)
    ensures FROM != TO && FROM != MODE && FROM != BUCKET && FROM != FOCUS
    ensures TO != MODE && TO != BUCKET && TO != FOCUS && MODE != BUCKET && MODE != FOCUS && BUCKET != FOCUS
  {
    assert |FROM| == 4 && |TO| == 2 && |MODE| == 4 && |BUCKET| == 6 && |FOCUS| == 5;
    assert FROM[0] == 'f' as int && MODE[0] == 'm' as int;
  }

  /** Each key of the printed parameters carries its own part of the state. */
  lemma ParamsCarry(s: ViewState, k: Text)
    ensures Get(MapOf(ParamsOf(s)), k) ==
            if k == Ascii("from") then s.fromIso
            else if k == Ascii("to") then s.toIso
            else if k == Ascii("mode") then s.mode
            else if k == Ascii("bucket") then (if s.bucket != Ascii("auto") then s.bucket else [])
            else if k == Ascii("focus") then FocusText(s)
            else []
  {
    KeysDiffer();
    hide FocusText, MapOf, Piece;
    var bucket := if s.bucket != AUTO then s.bucket else [];
    var p0: seq<Param> := [];
    var p1 := p0 + Piece(FROM, s.fromIso);
    var p2 := p1 + Piece(TO, s.toIso);
    var p3 := p2 + Piece(MODE, s.mode);
    var p4 := p3 + Piece(BUCKET, bucket);
    MapOfAppend(p0, FROM, s.fromIso, k);
    MapOfAppend(p1, TO, s.toIso, k);
    MapOfAppend(p2, MODE, s.mode, k);
    MapOfAppend(p3, BUCKET, bucket, k);
    MapOfAppend(p4, FOCUS, FocusText(s), k);
    assert p0 + Piece(FROM, s.fromIso) == Piece(FROM, s.fromIso);
    assert ParamsOf(s) == p4 + Piece(FOCUS, FocusText(s));
    assert Get(MapOf([]), k) == [] by { MapOfNone(k); }
  }

  lemma MapOfNone(k: Text)
    ensures Get(MapOf([]), k) == []
  {
  }

  lemma ParamsKeys(s: ViewState)
    ensures forall p :: p in ParamsOf(s) ==> PlainKey(p.key)
  {
    KeysDiffer();
    hide FocusText, PlainKey;
  }

  /** For every state that can be written at all, reading gives back its normal form. */
  lemma ReadAfterWrite(s: ViewState)
    requires SearchOf(s).Some?
    ensures Parse(SearchOf(s).value) == Normalise(s)
  {
    var ps := ParamsOf(s);
    var parts := PrintAll(ps).value;
    ParamsKeys(s);
    ParamsPrintAll(ps);
    assert Params(Split(QueryOf(SearchOf(s).value), AMPERSAND)) == MapOf(ps) by {
      if parts == [] {
        assert ps == [];
        var none: seq<Text> := [[]];
        assert Split([], AMPERSAND) == none;
        assert none[..0] == [];
      } else {
        SplitJoin(parts, AMPERSAND);
        var search := [QUESTION] + Join(parts, AMPERSAND);
        assert search[1..] == Join(parts, AMPERSAND);
      }
    }
    KeysDiffer();
    ParamsCarry(s, FROM);
    ParamsCarry(s, TO);
    ParamsCarry(s, MODE);
    ParamsCarry(s, BUCKET);
    ParamsCarry(s, FOCUS);
  }

  /** A state comes back unchanged exactly when it is canonical. */
  lemma RoundTripExact(s: ViewState)
    requires SearchOf(s).Some?
    ensures Parse(SearchOf(s).value) == s <==> Canonical(s)
  {
    ReadAfterWrite(s);
    FocusSurvives(s);
    assert |LIVE| == 4 && |AUTO| == 4 && |DEFAULT_FROM| == 6 && |DEFAULT_TO| == 7;
  }

  lemma FocusSurvives(s: ViewState)
    ensures ParseFocus(FocusText(s)) == s.focus <==>
            s.focus.Some? ==> s.focus.value.kind != [] && COLON !in s.focus.value.kind && s.focus.value.hash != []
  {
    if s.focus.Some? {
      var f := s.focus.value;
      if f.kind != [] && f.hash != [] {
        var t := f.kind + [COLON] + f.hash;
        var i := IndexOf(t, COLON).value;
        assert t[|f.kind|] == COLON;
        if COLON !in f.kind {
          FirstIs(f.kind, COLON, f.hash);
          assert t[..|f.kind|] == f.kind && t[|f.kind| + 1..] == f.hash;
        }
      }
    }
  }

  /** A state can be written exactly when none of the parts to be written has a lone surrogate. */
  lemma {:induction false} WritableExact(s: ViewState)
    ensures SearchOf(s).Some? <==> forall p :: p in ParamsOf(s) ==> WellFormed(p.value)
  {
    PrintAllWritable(ParamsOf(s));
  }

  lemma {:induction false} PrintAllWritable(ps: seq<Param>)
    ensures PrintAll(ps).Some? <==> forall p :: p in ps ==> WellFormed(p.value)
  {
    hide WellFormed;
    if ps != [] {
      var init, last := ps[..|ps| - 1], ps[|ps| - 1];
      PrintAllWritable(init);
      EncodeIffWellFormed(last.value);
      assert ps == init + [last];
    }
  }

  /** Going through the address bar a second time changes nothing more. */
  lemma NormaliseSettles(s: ViewState)
    ensures Canonical(Normalise(s)) && Normalise(Normalise(s)) == Normalise(s)
  {
    var t := FocusText(s);
    if t != [] {
      var f := s.focus.value;
      assert t[|f.kind|] == COLON;
      var i := IndexOf(t, COLON).value;
      assert i <= |f.kind|;
      assert forall j :: 0 <= j < i ==> t[..i][j] != COLON;
    }
    assert |LIVE| == 4 && |AUTO| == 4 && |DEFAULT_FROM| == 6 && |DEFAULT_TO| == 7;
    FocusSurvives(Normalise(s));
  }

  // What the address bar says, in its own terms

  lemma {:induction false} JoinSplit(s: Text, c: CodeUnit)
    ensures Join(Split(s, c), c) == s && Split(s, c) != [] && forall part :: part in Split(s, c) ==> c !in part
    decreases |s|
  {
    var at := IndexOf(s, c);
    if at.Some? {
      var i := at.value;
      JoinSplit(s[i + 1..], c);
      var rest := Split(s[i + 1..], c);
      var parts := [s[..i]] + rest;
      assert parts[1..] == rest;
      assert s == s[..i] + [c] + s[i + 1..];
    }
  }

  /** Text that does not decode stays as it is. */
  ghost predicate IsDecoded(t: Text, d: Text) {
    if Decode(t).Some? then d == Decode(t).value else d == t
  }

  /** The pair gives the key that value, split at its first "="; without one the value is empty. */
  ghost predicate Tells(pair: Text, key: Text, value: Text) {
    exists a, b :: IsPair(pair, a, b) && IsDecoded(a, key) && IsDecoded(b, value)
  }

  ghost predicate IsPair(pair: Text, a: Text, b: Text) {
    && pair != [] && '=' as int !in a
    && (if '=' as int in pair then pair == a + ['=' as int] + b else pair == a && b == [])
  }

  ghost predicate Names(pair: Text, key: Text) {
    exists value :: Tells(pair, key, value)
  }

  /** The last pair that names the key decides; a key that none names is empty. */
  ghost predicate IsParam(pairs: seq<Text>, key: Text, value: Text) {
    if exists i :: 0 <= i < |pairs| && Names(pairs[i], key) then
      exists i :: 0 <= i < |pairs| && Tells(pairs[i], key, value) && forall j :: i < j < |pairs| ==> !Names(pairs[j], key)
    else value == []
  }

  lemma PairIs(pair: Text, key: Text, value: Text)
    ensures Tells(pair, key, value) <==> pair != [] && ParsePair(pair) == Param(key, value)
  {
    if pair != [] {
      var at := IndexOf(pair, EQUALS);
      if at.Some? {
        assert pair == pair[..at.value] + [EQUALS] + pair[at.value + 1..];
        assert IsPair(pair, pair[..at.value], pair[at.value + 1..]);
        forall a, b | IsPair(pair, a, b) ensures a == pair[..at.value] && b == pair[at.value + 1..] {
          FirstIs(a, EQUALS, b);
        }
      } else {
        assert IsPair(pair, pair, []);
      }
    }
  }

  lemma NamesIs(pair: Text, key: Text)
    ensures Names(pair, key) <==> pair != [] && ParsePair(pair).key == key
  {
    PairIs(pair, key, ParsePair(pair).value);
    forall value | Tells(pair, key, value) ensures pair != [] && ParsePair(pair).key == key {
      PairIs(pair, key, value);
    }
  }

  lemma {:induction false} ParamsAre(pairs: seq<Text>, key: Text)
    ensures IsParam(pairs, key, Get(Params(pairs), key))
  {
    if pairs != [] {
      var init, last := pairs[..|pairs| - 1], pairs[|pairs| - 1];
      ParamsAre(init, key);
      NamesIs(last, key);
      PairIs(last, key, ParsePair(last).value);
      hide ParsePair, Tells, Names, IsParam;
      ParamStep(init, last, key, Get(Params(init), key), ParsePair(last).value);
      assert pairs == init + [last];
    } else {
      NothingNamed(key);
    }
  }

  lemma NothingNamed(key: Text)
    ensures IsParam([], key, [])
  {
  }

  lemma ParamStep(init: seq<Text>, last: Text, key: Text, value: Text, own: Text)
    requires IsParam(init, key, value) && (Names(last, key) ==> Tells(last, key, own))
    ensures IsParam(init + [last], key, if Names(last, key) then own else value)
  {
    hide Tells, Names;
    var pairs := init + [last];
    if Names(last, key) {
      assert Names(pairs[|init|], key) && Tells(pairs[|init|], key, own);
    } else if i :| 0 <= i < |init| && Names(init[i], key) {
      assert Names(pairs[i], key);
      var k :| 0 <= k < |init| && Tells(init[k], key, value) && forall j :: k < j < |init| ==> !Names(init[j], key);
      assert Tells(pairs[k], key, value);
      forall j | k < j < |pairs| ensures !Names(pairs[j], key) {
        assert j < |init| ==> pairs[j] == init[j];
      }
    } else {
      forall i | 0 <= i < |pairs| ensures !Names(pairs[i], key) {
        assert i < |init| ==> pairs[i] == init[i];
      }
    }
  }

  /** The focus is what stands before and after the first colon, if something stands before it. */
  ghost predicate IsFocus(t: Text, focus: Option<Focus>) {
    if exists kind, hash :: HasColon(t, kind, hash) then
      focus.Some? && HasColon(t, focus.value.kind, focus.value.hash)
    else focus == None
  }

  ghost predicate HasColon(t: Text, kind: Text, hash: Text) {
    kind != [] && ':' as int !in kind && t == kind + [':' as int] + hash
  }

  lemma FocusIs(t: Text)
    ensures IsFocus(t, ParseFocus(t))
  {
    forall kind, hash | HasColon(t, kind, hash) ensures ParseFocus(t) == Some(Focus(kind, hash)) {
      FirstIs(kind, COLON, hash);
      assert t[..|kind|] == kind && t[|kind| + 1..] == hash;
    }
    var f := ParseFocus(t);
    if f.Some? {
      var i := IndexOf(t, COLON).value;
      assert t == t[..i] + [COLON] + t[i + 1..];
      assert HasColon(t, f.value.kind, f.value.hash);
    }
  }

  ghost predicate Is(t: Text, s: string) {
    |t| == |s| && forall i :: 0 <= i < |s| ==> t[i] == s[i] as int
  }

  /** The value the pairs give for the key, or the default for an empty one. */
  ghost predicate IsField(pairs: seq<Text>, key: string, fallback: string, r: Text) {
    exists k, v :: Is(k, key) && IsParam(pairs, k, v) && if v != [] then r == v else Is(r, fallback)
  }

  ghost predicate IsMode(pairs: seq<Text>, r: Text) {
    exists k, v :: Is(k, "mode") && IsParam(pairs, k, v) && if Is(v, "replay") then r == v else Is(r, "live")
  }

  ghost predicate IsFocusField(pairs: seq<Text>, r: Option<Focus>) {
    exists k, v :: Is(k, "focus") && IsParam(pairs, k, v) && IsFocus(v, r)
  }

  /** The query without its question mark, taken apart at every ampersand. */
  ghost predicate IsSplit(search: Text, pairs: seq<Text>) {
    && pairs != [] && (forall pair :: pair in pairs ==> '&' as int !in pair)
    && Join(pairs, '&' as int) == if search != [] && search[0] == '?' as int then search[1..] else search
  }

  ghost predicate ReadsFrom(pairs: seq<Text>, s: ViewState) {
    && IsField(pairs, "from", "now-2m", s.fromIso) && IsField(pairs, "to", "now+30s", s.toIso)
    && IsMode(pairs, s.mode) && IsField(pairs, "bucket", "auto", s.bucket) && IsFocusField(pairs, s.focus)
  }

  /** The state that a query string, with or without its question mark, stands for. */
  ghost predicate ReadsAs(search: Text, s: ViewState) {
    exists pairs :: IsSplit(search, pairs) && ReadsFrom(pairs, s)
  }

  lemma FieldIs(pairs: seq<Text>, k: Text, key: string, default: Text, fallback: string)
    requires Is(k, key) && Is(default, fallback)
    ensures IsField(pairs, key, fallback, Or(Get(Params(pairs), k), default))
  {
    ParamsAre(pairs, k);
    hide IsParam, Params;
  }

  lemma ModeIs(pairs: seq<Text>)
    ensures IsMode(pairs, ParseMode(Get(Params(pairs), MODE)))
  {
    ParamsAre(pairs, MODE);
    assert Is(MODE, "mode") && Is(LIVE, "live") && Is(REPLAY, "replay");
    hide IsParam, Params;
    var v := Get(Params(pairs), MODE);
    assert Is(v, "replay") <==> v == REPLAY;
  }

  lemma FocusFieldIs(pairs: seq<Text>)
    ensures IsFocusField(pairs, ParseFocus(Get(Params(pairs), FOCUS)))
  {
    ParamsAre(pairs, FOCUS);
    FocusIs(Get(Params(pairs), FOCUS));
    hide IsParam, Params, IsFocus, ParseFocus;
  }

  /** Any query string at all is read like that. */
  lemma ParseReads(search: Text)
    ensures ReadsAs(search, Parse(search))
  {
    var pairs := Split(QueryOf(search), AMPERSAND);
    JoinSplit(QueryOf(search), AMPERSAND);
    FieldIs(pairs, FROM, "from", DEFAULT_FROM, "now-2m");
    FieldIs(pairs, TO, "to", DEFAULT_TO, "now+30s");
    ModeIs(pairs);
    FieldIs(pairs, BUCKET, "bucket", AUTO, "auto");
    FocusFieldIs(pairs);
    hide Params, IsField, IsMode, IsFocusField, ParseFocus, ParseMode, Split, Join, Or;
    assert IsSplit(search, pairs) && ReadsFrom(pairs, Parse(search));
  }

  /** A part of the query string: nothing for an empty value, and otherwise the key and the encoded value. */
  ghost predicate IsPart(parts: seq<Text>, key: string, value: Text) {
    if value == [] then parts == []
    else exists k: Text :: Is(k, key) && Encode(value).Some? && parts == [k + ['=' as int] + Encode(value).value]
  }

  ghost predicate IsBucketText(bucket: Text, t: Text) {
    if Is(bucket, "auto") then t == [] else t == bucket
  }

  ghost predicate IsFocusText(focus: Option<Focus>, t: Text) {
    if focus.Some? && focus.value.kind != [] && focus.value.hash != []
    then t == focus.value.kind + [':' as int] + focus.value.hash
    else t == []
  }

  /** The parts that are there, in this order. */
  ghost predicate ArePieces(s: ViewState, from: seq<Text>, to: seq<Text>, mode: seq<Text>, bucket: seq<Text>, focus: seq<Text>) {
    && IsPart(from, "from", s.fromIso) && IsPart(to, "to", s.toIso) && IsPart(mode, "mode", s.mode)
    && (exists t :: IsBucketText(s.bucket, t) && IsPart(bucket, "bucket", t))
    && (exists t :: IsFocusText(s.focus, t) && IsPart(focus, "focus", t))
  }

  /** The query string a state is written as. */
  ghost predicate WrittenAs(s: ViewState, search: Text) {
    exists from, to, mode, bucket, focus ::
      && ArePieces(s, from, to, mode, bucket, focus)
      && var parts := from + to + mode + bucket + focus;
         search == if parts == [] then [] else ['?' as int] + Join(parts, '&' as int)
  }

  lemma {:induction false} PrintAllAppend(ps: seq<Param>, qs: seq<Param>)
    requires PrintAll(ps + qs).Some?
    ensures PrintAll(ps).Some? && PrintAll(qs).Some? && PrintAll(ps + qs).value == PrintAll(ps).value + PrintAll(qs).value
  {
    hide Print;
    if qs == [] {
      assert ps + qs == ps;
    } else {
      var init, last := qs[..|qs| - 1], qs[|qs| - 1];
      assert (ps + qs)[..|ps + qs| - 1] == ps + init;
      PrintAllAppend(ps, init);
    }
  }

  lemma PiecePrints(k: Text, key: string, value: Text)
    requires Is(k, key) && PrintAll(Piece(k, value)).Some?
    ensures IsPart(PrintAll(Piece(k, value)).value, key, value)
  {
    if value != [] {
      var ps := Piece(k, value);
      assert ps[..0] == [] && PrintAll([]) == Some([]);
    }
  }

  lemma PiecesPrint(s: ViewState, bucket: Text)
    requires bucket == if s.bucket != AUTO then s.bucket else []
    requires PrintAll(Piece(FROM, s.fromIso)).Some? && PrintAll(Piece(TO, s.toIso)).Some? && PrintAll(Piece(MODE, s.mode)).Some?
    requires PrintAll(Piece(BUCKET, bucket)).Some? && PrintAll(Piece(FOCUS, FocusText(s))).Some?
    ensures ArePieces(s, PrintAll(Piece(FROM, s.fromIso)).value, PrintAll(Piece(TO, s.toIso)).value, PrintAll(Piece(MODE, s.mode)).value,
                      PrintAll(Piece(BUCKET, bucket)).value, PrintAll(Piece(FOCUS, FocusText(s))).value)
  {
    PiecePrints(FROM, "from", s.fromIso);
    PiecePrints(TO, "to", s.toIso);
    PiecePrints(MODE, "mode", s.mode);
    PiecePrints(BUCKET, "bucket", bucket);
    PiecePrints(FOCUS, "focus", FocusText(s));
    assert IsFocusText(s.focus, FocusText(s));
    assert IsBucketText(s.bucket, bucket) by {
      assert Is(AUTO, "auto");
      assert Is(s.bucket, "auto") <==> s.bucket == AUTO;
    }
    hide IsPart, PrintAll, Piece;
  }

  /** Every state that can be written is written like that. */
  lemma SearchIs(s: ViewState)
    requires SearchOf(s).Some?
    ensures WrittenAs(s, SearchOf(s).value)
  {
    hide PrintAll, Piece, Join, ArePieces, FocusText;
    var bucket := if s.bucket != AUTO then s.bucket else [];
    var a, b, c, d, e := Piece(FROM, s.fromIso), Piece(TO, s.toIso), Piece(MODE, s.mode), Piece(BUCKET, bucket),
                         Piece(FOCUS, FocusText(s));
    assert ParamsOf(s) == a + b + c + d + e;
    PrintAllAppend(a + b + c + d, e);
    PrintAllAppend(a + b + c, d);
    PrintAllAppend(a + b, c);
    PrintAllAppend(a, b);
    PiecesPrint(s, bucket);
  }
}
