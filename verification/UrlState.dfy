/** The timeline view's state in the address bar's query string: a printer and a parser. */
module UrlState {
  import opened Option
  import opened PercentEncoding

  const AMPERSAND: CodeUnit := '&' as int
  const EQUALS: CodeUnit := '=' as int
  const QUESTION: CodeUnit := '?' as int
  const COLON: CodeUnit := ':' as int

  const FROM := Ascii("from")
  const TO := Ascii("to")
  const MODE := Ascii("mode")
  const BUCKET := Ascii("bucket")
  const FOCUS := Ascii("focus")
  const LIVE := Ascii("live")
  const REPLAY := Ascii("replay")
  const AUTO := Ascii("auto")
  const DEFAULT_FROM := Ascii("now-2m")
  const DEFAULT_TO := Ascii("now+30s")

  datatype Focus = Focus(kind: Text, hash: Text)

  /** Missing text is empty, as it is to the source's truth tests. */
  datatype ViewState = ViewState(fromIso: Text, toIso: Text, mode: Text, bucket: Text, focus: Option<Focus>)

  function Or(t: Text, fallback: Text): Text {
    if t != [] then t else fallback
  }

  function IndexOf(s: Text, c: CodeUnit): (r: Option<nat>)
    ensures r.Some? ==> r.value < |s| && s[r.value] == c && forall i :: 0 <= i < r.value ==> s[i] != c
    ensures r.None? ==> c !in s
  {
    if s == [] then None
    else if s[0] == c then Some(0)
    else
      match IndexOf(s[1..], c)
      case None => None
      case Some(i) => Some(i + 1)
  }

  function Split(s: Text, c: CodeUnit): seq<Text> {
    match IndexOf(s, c)
    case None => [s]
    case Some(i) => [s[..i]] + Split(s[i + 1..], c)
  }

  function Join(parts: seq<Text>, c: CodeUnit): Text {
    if parts == [] then []
    else if |parts| == 1 then parts[0]
    else parts[0] + [c] + Join(parts[1..], c)
  }

  // Printing

  datatype Param = Param(key: Text, value: Text)

  function Piece(key: Text, value: Text): seq<Param> {
    if value != [] then [Param(key, value)] else []
  }

  function FocusText(s: ViewState): Text {
    if s.focus.Some? && s.focus.value.kind != [] && s.focus.value.hash != []
    then s.focus.value.kind + [COLON] + s.focus.value.hash
    else []
  }

  /** The parameters a state has to be told by, defaults and incomplete parts left out. */
  function ParamsOf(s: ViewState): seq<Param> {
    Piece(FROM, s.fromIso) + Piece(TO, s.toIso) + Piece(MODE, s.mode)
    + Piece(BUCKET, if s.bucket != AUTO then s.bucket else []) + Piece(FOCUS, FocusText(s))
  }

  function Print(p: Param): Option<Text> {
    match Encode(p.value)
    case None => None
    case Some(v) => Some(p.key + [EQUALS] + v)
  }

  function PrintAll(ps: seq<Param>): (r: Option<seq<Text>>)
    ensures r.Some? ==> |r.value| == |ps|
  {
    if ps == [] then Some([])
    else
      match (PrintAll(ps[..|ps| - 1]), Print(ps[|ps| - 1]))
      case (Some(parts), Some(last)) => Some(parts + [last])
      case _ => None
  }

  /** The query string of a state, None when some part of it cannot be encoded. */
  function SearchOf(s: ViewState): Option<Text> {
    match PrintAll(ParamsOf(s))
    case None => None
    case Some(parts) => Some(if parts == [] then [] else [QUESTION] + Join(parts, AMPERSAND))
  }

  // Parsing

  function QueryOf(search: Text): Text {
    if search != [] && search[0] == QUESTION then search[1..] else search
  }

  function DecodeOrRaw(t: Text): Text {
    match Decode(t)
    case None => t
    case Some(d) => d
  }

  function ParsePair(pair: Text): Param {
    match IndexOf(pair, EQUALS)
    case None => Param(DecodeOrRaw(pair), DecodeOrRaw([]))
    case Some(i) => Param(DecodeOrRaw(pair[..i]), DecodeOrRaw(pair[i + 1..]))
  }

  function Params(pairs: seq<Text>): map<Text, Text> {
    if pairs == [] then map[]
    else
      var params, pair := Params(pairs[..|pairs| - 1]), pairs[|pairs| - 1];
      if pair == [] then params
      else params[ParsePair(pair).key := ParsePair(pair).value]
  }

  function Get(params: map<Text, Text>, key: Text): Text {
    if key in params then params[key] else []
  }

  function ParseFocus(t: Text): Option<Focus> {
    match IndexOf(t, COLON)
    case None => None
    case Some(i) => if i > 0 then Some(Focus(t[..i], t[i + 1..])) else None
  }

  function ParseMode(t: Text): Text {
    if t == LIVE || t == REPLAY then t else LIVE
  }

  function StateFrom(params: map<Text, Text>): ViewState {
    ViewState(Or(Get(params, FROM), DEFAULT_FROM), Or(Get(params, TO), DEFAULT_TO),
              ParseMode(Get(params, MODE)), Or(Get(params, BUCKET), AUTO), ParseFocus(Get(params, FOCUS)))
  }

  function Parse(search: Text): ViewState {
    StateFrom(Params(Split(QueryOf(search), AMPERSAND)))
  }

  // The address bar

  class AddressBar {
    var search: Text

    method Read() returns (s: ViewState)
      ensures s == Parse(search)
    {
      hide StateFrom, ParsePair, Split;
      var query := search;
      if query != [] && query[0] == QUESTION {
        query := query[1..];
      }
      var pairs := Split(query, AMPERSAND);
      var params: map<Text, Text> := map[];
      for i := 0 to |pairs|
        invariant params == Params(pairs[..i])
      {
        assert pairs[..i + 1][..i] == pairs[..i];
        if pairs[i] == [] {
          continue;
        }
        var p := ParsePair(pairs[i]);
        params := params[p.key := p.value];
      }
      assert pairs[..|pairs|] == pairs;
      s := StateFrom(params);
    }

    /** Prints the parameters one by one; nothing is replaced when one of them cannot be encoded. */
    method Write(s: ViewState) returns (thrown: bool)
      modifies this
      ensures thrown <==> SearchOf(s).None?
      ensures search == if thrown then old(search) else SearchOf(s).value
    {
      hide Encode, Join, FocusText;
      thrown := true;
      var todo := ParamsOf(s);
      var parts: seq<Text> := [];
      for i := 0 to |todo|
        invariant PrintAll(todo[..i]) == Some(parts)
      {
        assert todo[..i + 1][..i] == todo[..i];
        match Print(todo[i]) {
          case None =>
            PrintAllFails(todo, i);
            return;
          case Some(part) =>
            parts := parts + [part];
        }
      }
      assert todo[..|todo|] == todo;
      search := if parts == [] then [] else [QUESTION] + Join(parts, AMPERSAND);
      thrown := false;
    }
  }

  lemma {:induction false} PrintAllFails(ps: seq<Param>, i: nat)
    requires i < |ps| && Print(ps[i]).None?
    ensures PrintAll(ps).None?
  {
    if i < |ps| - 1 {
      PrintAllFails(ps[..|ps| - 1], i);
    }
  }
}
