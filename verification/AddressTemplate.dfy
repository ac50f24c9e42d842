/** Template expressions around bare addresses: building one, and extracting an address again with a
    non-greedy pattern that takes at least one character. */
module AddressTemplate {
  import opened Option

  const OPEN := "{~D:Record."
  const CLOSE := "~}"

  /** What a dot in the pattern does not match. */
  predicate LineTerminator(c: char) {
    c == '\n' || c == '\r' || c == '\U{2028}' || c == '\U{2029}'
  }

  predicate Space(c: char) {
    || LineTerminator(c)
    || c == '\t' || c == '\U{000B}' || c == '\U{000C}' || c == ' ' || c == '\U{00A0}' || c == '\U{FEFF}'
    || c == '\U{1680}' || '\U{2000}' <= c <= '\U{200A}' || c == '\U{202F}' || c == '\U{205F}' || c == '\U{3000}'
  }

  function TrimStart(s: string): string {
    if s != "" && Space(s[0]) then TrimStart(s[1..]) else s
  }

  function TrimEnd(s: string): string {
    if s != "" && Space(s[|s| - 1]) then TrimEnd(s[..|s| - 1]) else s
  }

  function Trim(s: string): string {
    TrimEnd(TrimStart(s))
  }

  predicate Trimmed(s: string) {
    s == "" || (!Space(s[0]) && !Space(s[|s| - 1]))
  }

  predicate CloseAt(s: string, j: int) {
    0 <= j && j + 2 <= |s| && s[j] == '~' && s[j + 1] == '}'
  }

  /** The first close at or after `j` with no line terminator before it. */
  function FindClose(s: string, j: nat): (r: Option<nat>)
    ensures r.Some? ==> j <= r.value && CloseAt(s, r.value)
    ensures r.Some? ==> forall k :: j <= k < r.value ==> !CloseAt(s, k) && !LineTerminator(s[k])
    ensures r.None? ==> forall m :: j <= m && CloseAt(s, m) ==> exists k :: j <= k < m && LineTerminator(s[k])
    decreases |s| - j
  {
    if j + 2 > |s| then None
    else if CloseAt(s, j) then Some(j)
    else if LineTerminator(s[j]) then None
    else FindClose(s, j + 1)
  }

  predicate OpenAt(s: string, i: nat) {
    i + |OPEN| <= |s| && s[i..i + |OPEN|] == OPEN
  }

  /** What the pattern captures when it matches at `i`: one character, then as few more as it can. */
  function MatchAt(s: string, i: nat): (r: Option<string>)
    ensures r.Some? ==> r.value != "" && |r.value| + |OPEN| + |CLOSE| <= |s| - i
    ensures r.Some? ==> forall k :: 0 <= k < |r.value| ==> !LineTerminator(r.value[k])
  {
    var b := i + |OPEN|;
    if OpenAt(s, i) && b < |s| && !LineTerminator(s[b]) then
      match FindClose(s, b + 1)
      case None => None
      case Some(j) => Some(s[b..j])
    else None
  }

  /** The leftmost match at or after `i`. */
  function Search(s: string, i: nat): (r: Option<string>)
    requires i <= |s|
    ensures r.Some? ==> r.value != "" && |r.value| + |OPEN| + |CLOSE| <= |s| - i
    ensures r.Some? ==> forall k :: 0 <= k < |r.value| ==> !LineTerminator(r.value[k])
    decreases |s| - i
  {
    if MatchAt(s, i).Some? then MatchAt(s, i)
    else if i == |s| then None
    else Search(s, i + 1)
  }

  function Extract(s: string): string {
    match Search(s, 0)
    case None => ""
    case Some(a) => a
  }

  function Build(address: string): string {
    if address == "" then "" else OPEN + address + CLOSE
  }

  // What building and extracting do to any text

  lemma BuildIs(a: string)
    ensures Build(a) == if a == "" then "" else "{~D:Record." + a + "~}"
  {
  }

  ghost predicate Opens(s: string, i: int) {
    0 <= i && i + 11 <= |s| && s[i..i + 11] == "{~D:Record."
  }

  ghost predicate Closes(s: string, j: int) {
    0 <= j && j + 2 <= |s| && s[j..j + 2] == "~}"
  }

  /** The template that opens at `i` can close at `j`: at least one character is between, and no line ends. */
  ghost predicate Spans(s: string, i: int, j: int) {
    Opens(s, i) && i + 12 <= j && Closes(s, j) && forall k :: i + 11 <= k < j ==> s[k] !in {'\n', '\r', '\U{2028}', '\U{2029}'}
  }

  lemma CloseAtIs(s: string, j: int)
    ensures CloseAt(s, j) <==> Closes(s, j)
  {
    if CloseAt(s, j) {
      assert s[j..j + 2] == "~}";
    }
    if Closes(s, j) {
      assert s[j] == s[j..j + 2][0] && s[j + 1] == s[j..j + 2][1];
    }
  }

  lemma MatchIs(s: string, i: nat)
    ensures MatchAt(s, i).None? ==> forall j :: !Spans(s, i, j)
    ensures MatchAt(s, i).Some? ==>
              exists j :: Spans(s, i, j) && MatchAt(s, i).value == s[i + 11..j] && forall k :: k < j ==> !Spans(s, i, k)
  {
    forall j ensures CloseAt(s, j) <==> Closes(s, j) {
      CloseAtIs(s, j);
    }
    assert Opens(s, i) <==> OpenAt(s, i);
    hide Closes, CloseAt;
    if MatchAt(s, i).Some? {
      var j := FindClose(s, i + 12).value;
      assert Spans(s, i, j);
    }
  }

  lemma {:induction false} SearchIs(s: string, i: nat)
    requires i <= |s|
    ensures Search(s, i).None? ==> forall m, j :: i <= m ==> !Spans(s, m, j)
    ensures Search(s, i).Some? ==>
              exists m, j :: && i <= m && Spans(s, m, j) && Search(s, i).value == s[m + 11..j]
                             && (forall n, k :: i <= n < m ==> !Spans(s, n, k)) && (forall k :: k < j ==> !Spans(s, m, k))
    decreases |s| - i
  {
    hide MatchAt;
    MatchIs(s, i);
    if MatchAt(s, i).None? && i < |s| {
      SearchIs(s, i + 1);
    }
  }

  /** Extracting takes what the leftmost template holds, up to the first place where that can close, and nothing
      from text without a template. */
  lemma ExtractIs(s: string)
    ensures (forall i, j :: !Spans(s, i, j)) ==> Extract(s) == ""
    ensures (exists i, j :: Spans(s, i, j)) ==>
              exists i, j :: && Spans(s, i, j) && Extract(s) == s[i + 11..j]
                             && (forall m, k :: m < i ==> !Spans(s, m, k)) && (forall k :: k < j ==> !Spans(s, i, k))
  {
    SearchIs(s, 0);
  }

  // When extracting undoes building

  /** The pattern can take the whole address back out: nothing in it ends the match early or stops it. */
  predicate Extractable(a: string) {
    && (forall k :: 0 <= k < |a| ==> !LineTerminator(a[k]))
    && (forall k :: 1 <= k < |a| ==> !CloseAt(a, k))
  }

  lemma BuildOpens(a: string)
    requires a != ""
    ensures var s := Build(a);
            && OpenAt(s, 0) && |s| == |OPEN| + |a| + |CLOSE|
            && (forall k :: 0 <= k < |a| ==> s[|OPEN| + k] == a[k])
            && CloseAt(s, |OPEN| + |a|)
            && (forall k :: 0 <= k < |a| ==> (CloseAt(s, |OPEN| + k) <==> CloseAt(a, k)))
  {
    var s := Build(a);
    assert s[..|OPEN|] == OPEN;
    assert s[|OPEN| + |a|] == '~' && s[|OPEN| + |a| + 1] == '}';
  }

  /** Extracting from a built template never gives more than the address. */
  lemma ExtractNoLonger(a: string)
    ensures |Extract(Build(a))| <= |a|
  {
  }

  /** Extracting gives back the address that was built around exactly when it is extractable. */
  lemma ExtractBuildExact(a: string)
    ensures Extract(Build(a)) == a <==> Extractable(a)
  {
    if a != "" {
      BuildOpens(a);
      var s, b := Build(a), |OPEN|;
      hide Build, CloseAt, LineTerminator, OpenAt;
      if Extractable(a) {
        FullMatch(s, a);
      } else if forall k :: 0 <= k < |a| ==> !LineTerminator(a[k]) {
        var k :| 1 <= k < |a| && CloseAt(a, k);
        EarlyClose(s, a, k);
      }
    }
  }

  /** Nothing before the end of the address stops the match. */
  lemma FullMatch(s: string, a: string)
    requires a != "" && Extractable(a) && |s| == |OPEN| + |a| + |CLOSE| && OpenAt(s, 0)
    requires forall k :: 0 <= k < |a| ==> s[|OPEN| + k] == a[k]
    requires forall k :: 0 <= k < |a| ==> (CloseAt(s, |OPEN| + k) <==> CloseAt(a, k))
    requires CloseAt(s, |OPEN| + |a|)
    ensures Extract(s) == a
  {
    hide CloseAt, LineTerminator, OpenAt;
    var b := |OPEN|;
    assert s[b + 0] == a[0];
    forall k | b + 1 <= k < b + |a| ensures !LineTerminator(s[k]) && !CloseAt(s, k) {
      assert s[b + (k - b)] == a[k - b] && !CloseAt(a, k - b);
    }
    assert FindClose(s, b + 1) == Some(b + |a|);
    assert s[b..b + |a|] == a;
  }

  /** A close inside the address ends the match there or before. */
  lemma EarlyClose(s: string, a: string, k: nat)
    requires |s| == |OPEN| + |a| + |CLOSE| && OpenAt(s, 0)
    requires forall m :: 0 <= m < |a| ==> s[|OPEN| + m] == a[m] && !LineTerminator(a[m])
    requires 1 <= k < |a| && CloseAt(s, |OPEN| + k)
    ensures |Extract(s)| < |a|
  {
    hide LineTerminator;
    var b := |OPEN|;
    assert s[b] == a[0];
    forall m | b + 1 <= m < b + k ensures !LineTerminator(s[m]) {
      assert s[b + (m - b)] == a[m - b];
    }
    assert FindClose(s, b + 1).Some? && FindClose(s, b + 1).value <= b + k;
  }

  // Trimming

  lemma {:induction false} TrimStartLaws(s: string)
    ensures |TrimStart(s)| <= |s| && (|TrimStart(s)| == |s| ==> TrimStart(s) == s)
    ensures TrimStart(s) != "" ==> !Space(TrimStart(s)[0])
    ensures s != "" && !Space(s[0]) ==> TrimStart(s) == s
  {
    if s != "" && Space(s[0]) {
      TrimStartLaws(s[1..]);
    }
  }

  lemma {:induction false} TrimEndLaws(s: string)
    ensures TrimEnd(s) <= s && (|TrimEnd(s)| == |s| ==> TrimEnd(s) == s)
    ensures TrimEnd(s) != "" ==> !Space(TrimEnd(s)[|TrimEnd(s)| - 1])
    ensures s != "" && !Space(s[|s| - 1]) ==> TrimEnd(s) == s
  {
    if s != "" && Space(s[|s| - 1]) {
      TrimEndLaws(s[..|s| - 1]);
    }
  }

  /** Trimming leaves trimmed text alone and nothing else. */
  lemma TrimLaws(s: string)
    ensures |Trim(s)| <= |s| && (|Trim(s)| == |s| ==> Trim(s) == s)
    ensures Trimmed(Trim(s))
    ensures Trim(s) == s <==> Trimmed(s)
  {
    hide Space;
    TrimStartLaws(s);
    TrimEndLaws(TrimStart(s));
    TrimEndLaws(s);
  }

  /** White space and line terminators as the language defines them for `trim`, by code point. */
  lemma SpaceIs(c: char)
    ensures Space(c) <==>
            var n := c as int;
            || n in {0x9, 0xA, 0xB, 0xC, 0xD, 0x20, 0xA0, 0x1680, 0x2028, 0x2029, 0x202F, 0x205F, 0x3000, 0xFEFF}
            || 0x2000 <= n <= 0x200A
  {
  }

  ghost predicate AllSpace(s: string) {
    forall i :: 0 <= i < |s| ==> Space(s[i])
  }

  lemma {:induction false} TrimStartCuts(s: string) returns (n: nat)
    ensures n <= |s| && TrimStart(s) == s[n..] && AllSpace(s[..n])
  {
    if s != "" && Space(s[0]) {
      n := TrimStartCuts(s[1..]);
      n := n + 1;
      assert s[..n] == [s[0]] + s[1..][..n - 1];
    } else {
      n := 0;
    }
  }

  lemma {:induction false} TrimEndCuts(s: string)
    ensures TrimEnd(s) <= s && AllSpace(s[|TrimEnd(s)|..])
  {
    if s != "" && Space(s[|s| - 1]) {
      var init := s[..|s| - 1];
      TrimEndCuts(init);
      assert s[|TrimEnd(init)|..] == init[|TrimEnd(init)|..] + [s[|s| - 1]];
    }
  }

  /** Trimming cuts space off both ends and nothing else. */
  lemma TrimCuts(s: string) returns (before: string, after: string)
    ensures s == before + Trim(s) + after && AllSpace(before) && AllSpace(after)
  {
    var n := TrimStartCuts(s);
    var rest := TrimStart(s);
    TrimEndCuts(rest);
    before, after := s[..n], rest[|Trim(s)|..];
  }

  // Templates that survive

  /** The string is one built template and no more: its address is trimmed and can be taken out whole. */
  predicate IsTemplate(s: string) {
    && |OPEN| + |CLOSE| < |s|
    && s[..|OPEN|] == OPEN
    && s[|s| - |CLOSE|..] == CLOSE
    && Trimmed(s[|OPEN|..|s| - |CLOSE|])
    && Extractable(s[|OPEN|..|s| - |CLOSE|])
  }

  /** Taking the address out, trimming it and building anew gives a non-empty string back exactly when it
      is such a template. */
  lemma RebuildExact(s: string)
    requires s != ""
    ensures Build(Trim(Extract(s))) == s <==> IsTemplate(s)
  {
    hide Extractable, Extract, Trim, Trimmed;
    if IsTemplate(s) {
      var a := s[|OPEN|..|s| - |CLOSE|];
      assert s == Build(a);
      ExtractBuildExact(a);
      TrimLaws(a);
    }
    var a := Trim(Extract(s));
    if Build(a) == s {
      ExtractNoLonger(a);
      TrimLaws(Extract(s));
      assert Extract(s) == a;
      ExtractBuildExact(a);
      assert s[|OPEN|..|s| - |CLOSE|] == a && s[..|OPEN|] == OPEN && s[|s| - |CLOSE|..] == CLOSE;
    }
  }
}
