/** `extract_json` of the LLM service: strip the model's answer, search it
    for the pattern

        ```(?:json)?\s*(\{.*\})\s*```        (with DOTALL)

    and return the captured `{...}` group of the first match, or the
    stripped text when there is none.

    The regular expression is not interpreted by a general engine: the
    declarative predicate FenceMatchAt says when the whole pattern matches
    at a position with a given capture, and the matcher below (MatchAt,
    SearchFrom) computes the match Python's backtracking search reports,
    proved against that predicate. */
module JsonExtract {
  import opened Wrappers
  import opened PyStr

  /** A match of the pattern: where it starts and the span t[bodyStart..bodyEnd]
      of capture group 1. */
  datatype Match = Match(start: nat, bodyStart: nat, bodyEnd: nat)

  /** Three backticks start at i. */
  predicate FenceAt(t: string, i: nat) {
    i + 3 <= |t| && t[i] == '`' && t[i + 1] == '`' && t[i + 2] == '`'
  }

  /** The lowercase tag `json` starts at i (the match is case-sensitive). */
  predicate TagAt(t: string, i: nat) {
    i + 4 <= |t| && t[i] == 'j' && t[i + 1] == 's' && t[i + 2] == 'o' && t[i + 3] == 'n'
  }

  /** `\s*```` matches t[e..q + 3]: whitespace from e up to a fence at q. */
  predicate ClosingFence(t: string, e: nat, q: nat) {
    AllSpace(t, e, q) && FenceAt(t, q)
  }

  /** The whole pattern matches at `start` with group 1 equal to
      t[bodyStart..bodyEnd]:
        ```            at start,
        (?:json)?\s*   either plain whitespace, or `json` then whitespace,
        \{.*\}         a `{` at bodyStart and a `}` at bodyEnd - 1, anything
                       (newlines included) between them,
        \s*```         whitespace and then a fence. */
  ghost predicate FenceMatchAt(t: string, start: nat, bodyStart: nat, bodyEnd: nat) {
    && FenceAt(t, start)
    && (AllSpace(t, start + 3, bodyStart)
        || (TagAt(t, start + 3) && AllSpace(t, start + 7, bodyStart)))
    && bodyStart + 2 <= bodyEnd <= |t|
    && t[bodyStart] == '{'
    && t[bodyEnd - 1] == '}'
    && exists q: nat :: ClosingFence(t, bodyEnd, q)
  }

  /** No match starts at or after position `from`. */
  ghost predicate NoMatchFrom(t: string, from: nat) {
    forall s: nat, bs: nat, be: nat :: from <= s ==> !FenceMatchAt(t, s, bs, be)
  }

  /** No match starts in [from, to). */
  ghost predicate NoMatchBetween(t: string, from: nat, to: nat) {
    forall s: nat, bs: nat, be: nat :: from <= s < to ==> !FenceMatchAt(t, s, bs, be)
  }

  /** m is the match the backtracking engine settles on at m.start: every
      way the pattern can match there has the same group start (only one
      tag alternative can lead to a `{`) and a group end no later than
      m.bodyEnd (the greedy `.*`). */
  ghost predicate Greedy(t: string, m: Match) {
    && FenceMatchAt(t, m.start, m.bodyStart, m.bodyEnd)
    && forall bs: nat, be: nat :: FenceMatchAt(t, m.start, bs, be) ==>
         bs == m.bodyStart && be <= m.bodyEnd
  }

  /** m is what `re.search` reports: the greedy match at the leftmost
      position where the pattern matches at all. */
  ghost predicate LeftmostLongest(t: string, m: Match) {
    Greedy(t, m) && NoMatchBetween(t, 0, m.start)
  }

  // ---------------------------------------------------------------------
  // The matcher

  /** Where group 1 must begin for a match at `start`: after the fence, the
      tag if it is there, and the longest run of whitespace. */
  function BodyStart(t: string, start: nat): nat
    requires start + 3 <= |t|
  {
    SkipSpaces(t, if TagAt(t, start + 3) then start + 7 else start + 3)
  }

  /** `\s*```` can match from e: skipping the whitespace lands on a fence. */
  predicate ClosesAt(t: string, e: nat)
    requires e <= |t|
  {
    FenceAt(t, SkipSpaces(t, e))
  }

  /** The largest e in [bs + 2, hi] whose `}` at e - 1 is followed by
      whitespace and a fence: the backtracking of the greedy `.*`. */
  function LastClose(t: string, bs: nat, hi: nat): (r: Option<nat>)
    requires hi <= |t|
    ensures r.Some? ==> bs + 2 <= r.value <= hi && t[r.value - 1] == '}' && ClosesAt(t, r.value)
    ensures forall e: nat :: bs + 2 <= e <= hi && (r.None? || r.value < e) ==>
              !(t[e - 1] == '}' && ClosesAt(t, e))
    decreases hi
  {
    if hi < bs + 2 then None
    else if t[hi - 1] == '}' && ClosesAt(t, hi) then Some(hi)
    else LastClose(t, bs, hi - 1)
  }

  /** The match the engine finds at `start`, if any. */
  function MatchAt(t: string, start: nat): Option<Match> {
    if !FenceAt(t, start) then None
    else
      var bs := BodyStart(t, start);
      if bs < |t| && t[bs] == '{' then
        match LastClose(t, bs, |t|)
        case None => None
        case Some(be) => Some(Match(start, bs, be))
      else None
  }

  /** ClosesAt is the computable form of the existential in FenceMatchAt. */
  lemma ClosesAtIff(t: string, e: nat)
    requires e <= |t|
    ensures ClosesAt(t, e) <==> exists q: nat :: ClosingFence(t, e, q)
  {
    if exists q: nat :: ClosingFence(t, e, q) {
      var q: nat :| ClosingFence(t, e, q);
      SkipSpacesUnique(t, e, q);
    } else {
      var q := SkipSpaces(t, e);
      assert !ClosingFence(t, e, q);
    }
  }

  /** Every match at `start` has its group start where BodyStart says: with
      the tag present, skipping it is no use, since `j` is neither
      whitespace nor `{`; and `\s*` can only stop at the `{`. */
  lemma BodyStartUnique(t: string, start: nat, bs: nat, be: nat)
    requires FenceMatchAt(t, start, bs, be)
    ensures bs == BodyStart(t, start)
  {
    if TagAt(t, start + 3) {
      if AllSpace(t, start + 3, bs) {
        assert false;
      }
      SkipSpacesUnique(t, start + 7, bs);
    } else {
      SkipSpacesUnique(t, start + 3, bs);
    }
  }

  /** MatchAt finds the greedy match at `start`, and finds nothing exactly
      when the pattern cannot match there. */
  lemma MatchAtCorrect(t: string, start: nat)
    ensures MatchAt(t, start).Some? ==>
              MatchAt(t, start).value.start == start && Greedy(t, MatchAt(t, start).value)
    ensures MatchAt(t, start).None? ==>
              forall bs: nat, be: nat :: !FenceMatchAt(t, start, bs, be)
  {
    if FenceAt(t, start) {
      var bs := BodyStart(t, start);
      forall bs': nat, be': nat | FenceMatchAt(t, start, bs', be')
        ensures bs' == bs && bs + 2 <= be' <= |t| && t[be' - 1] == '}' && ClosesAt(t, be')
      {
        BodyStartUnique(t, start, bs', be');
        ClosesAtIff(t, be');
      }
      if bs < |t| && t[bs] == '{' {
        match LastClose(t, bs, |t|)
        case None =>
        case Some(be) =>
          ClosesAtIff(t, be);
          var p := if TagAt(t, start + 3) then start + 7 else start + 3;
          assert AllSpace(t, p, bs);
          assert FenceMatchAt(t, start, bs, be);
      }
    }
  }

  /** Python's `re.search`: try every start from `from` on, leftmost first. */
  function SearchFrom(t: string, from: nat): (r: Option<Match>)
    ensures r.Some? ==> from <= r.value.start && Greedy(t, r.value)
                        && NoMatchBetween(t, from, r.value.start)
    ensures r.None? ==> NoMatchFrom(t, from)
    decreases |t| - from
  {
    if |t| < from + 3 then None
    else
      MatchAtCorrect(t, from);
      match MatchAt(t, from)
      case Some(m) => Some(m)
      case None => SearchFrom(t, from + 1)
  }

  /** The search over the whole (stripped) text. */
  function Search(t: string): (r: Option<Match>)
    ensures r.Some? ==> LeftmostLongest(t, r.value)
    ensures r.None? ==> NoMatchFrom(t, 0)
  {
    SearchFrom(t, 0)
  }

  /** t is a contiguous piece of u. */
  ghost predicate IsSlice(t: string, u: string) {
    exists i: nat, j: nat :: i <= j <= |u| && t == u[i..j]
  }

  /** `extract_json(text)` (api/services/llm_service.py). */
  function ExtractJson(text: string): (r: string)
    // the stripped text comes back exactly when nothing matches
    ensures r == Strip(text) <==> NoMatchFrom(Strip(text), 0)
    // a captured group is a braced object
    ensures !NoMatchFrom(Strip(text), 0) ==> 2 <= |r| && r[0] == '{' && r[|r| - 1] == '}'
    // the result is a piece of the stripped input, so never longer than the input
    ensures IsSlice(r, Strip(text)) && |r| <= |text|
  {
    var t := Strip(text);
    match Search(t)
    case Some(m) =>
      assert t[m.bodyStart..m.bodyEnd][0] == t[m.bodyStart];
      assert |t[m.bodyStart..m.bodyEnd]| < |t|;
      t[m.bodyStart..m.bodyEnd]
    case None =>
      assert t == t[0..|t|];
      t
  }

  // ---------------------------------------------------------------------
  // Properties

  /** There is only one leftmost-longest match. */
  lemma LeftmostLongestUnique(t: string, m1: Match, m2: Match)
    requires LeftmostLongest(t, m1) && LeftmostLongest(t, m2)
    ensures m1 == m2
  {
    if m1.start == m2.start {
      assert FenceMatchAt(t, m1.start, m2.bodyStart, m2.bodyEnd);
    }
  }

  /** Leftmost and greedy: whenever m is the leftmost match and its group
      runs to the last `}` that whitespace and a fence follow, the result is
      exactly that group. */
  lemma ExtractJsonLeftmostLongest(text: string, m: Match)
    requires LeftmostLongest(Strip(text), m)
    ensures ExtractJson(text) == Strip(text)[m.bodyStart..m.bodyEnd]
  {
    var t := Strip(text);
    var r := Search(t);
    assert r.Some?;
    LeftmostLongestUnique(t, r.value, m);
  }

  /** A match can be re-ended at any later `}` that whitespace and a fence
      follow. */
  lemma ExtendMatch(t: string, start: nat, bs: nat, be: nat, e: nat)
    requires FenceMatchAt(t, start, bs, be)
    requires be <= e <= |t| && t[e - 1] == '}' && ClosesAt(t, e)
    ensures FenceMatchAt(t, start, bs, e)
  {
    ClosesAtIff(t, e);
  }

  /** The group of the greedy match runs to the LAST `}` that is followed
      only by whitespace and then a closing fence. */
  lemma GreedyEndsAtLastClosingBrace(t: string, m: Match, e: nat)
    requires Greedy(t, m)
    requires m.bodyEnd < e <= |t| && t[e - 1] == '}'
    ensures !ClosesAt(t, e)
  {
    if ClosesAt(t, e) {
      ExtendMatch(t, m.start, m.bodyStart, m.bodyEnd, e);
    }
  }

  // ---------------------------------------------------------------------
  // Fenced and unfenced answers

  /** The layout of a single fenced block, as positions in t: no backtick
      before a fence at st, the tag if p == st + 7, whitespace up to a `{` at
      bs, the group up to a `}` at be - 1, whitespace up to a fence that ends
      the text, and no `}` after the group. */
  ghost predicate SingleBlock(t: string, st: nat, p: nat, bs: nat, be: nat, q: nat) {
    BlockOpens(t, st, p, bs) && BlockCloses(t, bs, be, q)
  }

  /** The opening part of SingleBlock. */
  ghost predicate BlockOpens(t: string, st: nat, p: nat, bs: nat) {
    && FenceAt(t, st) && (forall k :: 0 <= k < st ==> t[k] != '`')
    && (p == st + 3 || p == st + 7) && (TagAt(t, st + 3) <==> p == st + 7)
    && AllSpace(t, p, bs) && bs < |t| && t[bs] == '{'
  }

  /** The closing part of SingleBlock. */
  ghost predicate BlockCloses(t: string, bs: nat, be: nat, q: nat) {
    && ClosingFence(t, be, q) && q + 3 == |t|
    && bs + 2 <= be && t[be - 1] == '}'
    && forall k :: be <= k < |t| ==> t[k] != '}'
  }

  /** In a single fenced block the search reports exactly its group. */
  lemma SingleBlockMatch(t: string, st: nat, p: nat, bs: nat, be: nat, q: nat)
    requires SingleBlock(t, st, p, bs, be, q)
    ensures LeftmostLongest(t, Match(st, bs, be))
  {
    SkipSpacesUnique(t, p, bs);
    forall bs': nat, be': nat | FenceMatchAt(t, st, bs', be')
      ensures bs' == bs && be' <= be
    {
      BodyStartUnique(t, st, bs', be');
    }
  }

  /** Stripping a text that ends in a backtick and has one at position n
      only removes leading whitespace, and at most n characters of it. */
  lemma StripKeepsFence(text: string, n: nat) returns (i: nat)
    requires n < |text| && text[n] == '`' && text[|text| - 1] == '`'
    ensures i <= n && Strip(text) == text[i..]
  {
    var r := Strip(text);
    var j: nat;
    i, j :| StripsTo(text, i, j) && r == text[i..j];
    assert j == |text|;
    assert i <= n;
  }

  /** A fence, a tag, whitespace, the object s, whitespace and a closing
      fence. */
  function FencedBlock(tag: string, w1: string, s: string, w2: string): (b: string)
    ensures |b| >= 6 && b[0] == '`' && b[|b| - 1] == '`'
  {
    "```" + tag + w1 + s + w2 + "```"
  }

  /** Prose followed by a fenced block. */
  function FencedText(prose: string, tag: string, w1: string, s: string, w2: string): string {
    prose + FencedBlock(tag, w1, s, w2)
  }

  /** The opening of a fenced block after prose without backticks: the
      fence, the tag and the whitespace before a `{`. */
  lemma OpeningLayout(prose: string, tag: string, w1: string, r: string)
    requires forall k :: 0 <= k < |prose| ==> prose[k] != '`'
    requires tag == "" || tag == "json"
    requires AllSpace(w1, 0, |w1|)
    requires |r| > 0 && r[0] == '{'
    ensures BlockOpens(prose + "```" + tag + w1 + r, |prose|,
                       |prose| + 3 + |tag|, |prose| + 3 + |tag| + |w1|)
  {
    var t := prose + "```" + tag + w1 + r;
    var st := |prose|;
    assert forall k :: 0 <= k < st ==> t[k] == prose[k];
    assert forall k :: 0 <= k < |w1| ==> t[st + 3 + |tag| + k] == w1[k];
    assert t[st + 3 + |tag| + |w1|] == r[0];
    if tag == "" {
      assert |w1| > 0 ==> t[st + 3] == w1[0];
    } else {
      assert t[st + 3..st + 7] == tag;
    }
  }

  /** The body and close of a fenced block: s, whitespace, a fence that ends
      the text, and no `}` after s. */
  lemma ClosingLayout(prose: string, tag: string, w1: string, s: string, w2: string)
    requires AllSpace(w2, 0, |w2|)
    requires |s| >= 2 && s[|s| - 1] == '}'
    ensures var bs := |prose| + 3 + |tag| + |w1|;
            BlockCloses(FencedText(prose, tag, w1, s, w2), bs, bs + |s|, bs + |s| + |w2|)
    ensures var bs := |prose| + 3 + |tag| + |w1|;
            FencedText(prose, tag, w1, s, w2)[bs..bs + |s|] == s
  {
    var t := FencedText(prose, tag, w1, s, w2);
    var l := prose + "```" + tag + w1 + s;
    assert t == l + w2 + "```";
    assert t[|l| - |s|..|l|] == s;
    assert t[|l| - 1] == s[|s| - 1];
    assert forall k :: 0 <= k < |w2| ==> t[|l| + k] == w2[k];
  }

  /** The positions of a single fenced block after prose without backticks. */
  lemma FencedBlockLayout(prose: string, tag: string, w1: string, s: string, w2: string)
    returns (m: Match)
    requires forall k :: 0 <= k < |prose| ==> prose[k] != '`'
    requires tag == "" || tag == "json"
    requires AllSpace(w1, 0, |w1|) && AllSpace(w2, 0, |w2|)
    requires |s| > 0 && s[0] == '{' && s[|s| - 1] == '}'
    ensures m.start == |prose| && m.bodyStart == |prose| + 3 + |tag| + |w1|
    ensures LeftmostLongest(FencedText(prose, tag, w1, s, w2), m)
    ensures m.bodyStart <= m.bodyEnd <= |FencedText(prose, tag, w1, s, w2)|
    ensures FencedText(prose, tag, w1, s, w2)[m.bodyStart..m.bodyEnd] == s
  {
    var t := FencedText(prose, tag, w1, s, w2);
    assert t == prose + "```" + tag + w1 + (s + w2 + "```");
    OpeningLayout(prose, tag, w1, s + w2 + "```");
    ClosingLayout(prose, tag, w1, s, w2);
    var st := |prose|;
    var bs := st + 3 + |tag| + |w1|;
    var be := bs + |s|;
    SingleBlockMatch(t, st, st + 3 + |tag|, bs, be, be + |w2|);
    m := Match(st, bs, be);
  }

  /** Wrapped equals unwrapped: a braced object inside one fenced block,
      tagged `json` or untagged, with any whitespace around it and any
      prose without backticks before it, comes back exactly, whatever it
      contains (newlines and fences included, since `.` matches anything
      under DOTALL and `.*` is greedy). */
  lemma FencedBlockYieldsBody(prose: string, tag: string, w1: string, s: string, w2: string)
    requires forall k :: 0 <= k < |prose| ==> prose[k] != '`'
    requires tag == "" || tag == "json"
    requires AllSpace(w1, 0, |w1|) && AllSpace(w2, 0, |w2|)
    requires |s| > 0 && s[0] == '{' && s[|s| - 1] == '}'
    ensures ExtractJson(FencedText(prose, tag, w1, s, w2)) == s
  {
    var prose' := StripFencedText(prose, tag, w1, s, w2);
    var m := FencedBlockLayout(prose', tag, w1, s, w2);
    ExtractJsonLeftmostLongest(FencedText(prose, tag, w1, s, w2), m);
  }

  /** Stripping a fenced text only shortens the prose in front of it. */
  lemma StripFencedText(prose: string, tag: string, w1: string, s: string, w2: string)
    returns (prose': string)
    requires forall k :: 0 <= k < |prose| ==> prose[k] != '`'
    ensures forall k :: 0 <= k < |prose'| ==> prose'[k] != '`'
    ensures Strip(FencedText(prose, tag, w1, s, w2)) == FencedText(prose', tag, w1, s, w2)
  {
    var b := FencedBlock(tag, w1, s, w2);
    var text := prose + b;
    assert text[|prose|] == b[0] && text[|text| - 1] == b[|b| - 1];
    var i := StripKeepsFence(text, |prose|);
    prose' := prose[i..];
    assert text[i..] == prose' + b;
  }

  /** The form the prompt warns against: "```json\n" + s + "\n```". */
  lemma JsonFencedYieldsBody(s: string)
    requires |s| > 0 && s[0] == '{' && s[|s| - 1] == '}'
    ensures ExtractJson("```json\n" + s + "\n```") == s
  {
    assert "```json\n" + s + "\n```" == FencedText("", "json", "\n", s, "\n");
    FencedBlockYieldsBody("", "json", "\n", s, "\n");
  }

  /** The same with an untagged fence: "```\n" + s + "\n```". */
  lemma BareFencedYieldsBody(s: string)
    requires |s| > 0 && s[0] == '{' && s[|s| - 1] == '}'
    ensures ExtractJson("```\n" + s + "\n```") == s
  {
    assert "```\n" + s + "\n```" == FencedText("", "", "\n", s, "\n");
    FencedBlockYieldsBody("", "", "\n", s, "\n");
  }

  /** A string without backticks contains no fence. */
  lemma NoBacktickNoMatch(t: string)
    requires forall k :: 0 <= k < |t| ==> t[k] != '`'
    ensures NoMatchFrom(t, 0)
  {
    forall st: nat, bs: nat, be: nat ensures !FenceMatchAt(t, st, bs, be) {
      assert !FenceAt(t, st) by {
        if st < |t| { assert t[st] != '`'; }
      }
    }
  }

  /** A bare braced object without backticks passes through unchanged, so
      fencing it (tagged or not) does not change what is extracted. */
  lemma FencedEqualsBare(s: string)
    requires |s| > 0 && s[0] == '{' && s[|s| - 1] == '}'
    requires forall k :: 0 <= k < |s| ==> s[k] != '`'
    ensures ExtractJson(s) == s
    ensures ExtractJson("```json\n" + s + "\n```") == ExtractJson(s)
    ensures ExtractJson("```\n" + s + "\n```") == ExtractJson(s)
  {
    StripNoOp(s);
    NoBacktickNoMatch(s);
    JsonFencedYieldsBody(s);
    BareFencedYieldsBody(s);
  }

  // ---------------------------------------------------------------------
  // The tag is case-sensitive

  /** After a fence, anything other than whitespace, `{` or the lowercase tag
      `json` (itself followed by whitespace or `{`) stops a match at that
      fence: ```JSON, ```python, ```jsonc cannot start one. */
  lemma UnknownTagNoMatchAt(t: string, start: nat)
    requires FenceAt(t, start) && start + 3 < |t|
    requires !IsSpace(t[start + 3]) && t[start + 3] != '{'
    requires TagAt(t, start + 3) ==>
               start + 7 < |t| && !IsSpace(t[start + 7]) && t[start + 7] != '{'
    ensures forall bs: nat, be: nat :: !FenceMatchAt(t, start, bs, be)
  {
    var p := if TagAt(t, start + 3) then start + 7 else start + 3;
    SkipSpacesUnique(t, p, p);
    assert t[BodyStart(t, start)] != '{';
    forall bs: nat, be: nat | FenceMatchAt(t, start, bs, be) ensures false {
      BodyStartUnique(t, start, bs, be);
    }
  }

  /** The only fences of "```" + mid + "```" are its ends when mid is not
      empty and has no backtick. */
  lemma FencesOnlyAtEnds(mid: string, st: nat)
    requires |mid| > 0
    requires forall k :: 0 <= k < |mid| ==> mid[k] != '`'
    requires FenceAt("```" + mid + "```", st)
    ensures st == 0 || st == |mid| + 3
  {
    var t := "```" + mid + "```";
    assert forall k :: 3 <= k < |mid| + 3 ==> t[k] == mid[k - 3];
  }

  /** A single block whose tag is not `json` in lowercase (or is `json`
      run into more letters) is not unwrapped: the text comes back only
      stripped, here unchanged. */
  lemma UnknownTagBlockUnchanged(tag: string, s: string)
    requires |tag| > 0 && !IsSpace(tag[0]) && tag[0] != '{'
    requires TagAt(tag, 0) ==> |tag| > 4 && !IsSpace(tag[4]) && tag[4] != '{'
    requires forall k :: 0 <= k < |tag| ==> tag[k] != '`'
    requires forall k :: 0 <= k < |s| ==> s[k] != '`'
    ensures ExtractJson("```" + tag + "\n" + s + "\n```") == "```" + tag + "\n" + s + "\n```"
  {
    var mid := tag + "\n" + s + "\n";
    var t := "```" + mid + "```";
    assert t == "```" + tag + "\n" + s + "\n```";
    assert forall k :: 0 <= k < |mid| ==> mid[k] != '`' by {
      forall k | 0 <= k < |mid| ensures mid[k] != '`' {
        if k < |tag| { assert mid[k] == tag[k]; }
        else if |tag| < k < |tag| + 1 + |s| { assert mid[k] == s[k - |tag| - 1]; }
      }
    }
    assert FenceAt(t, 0);
    assert TagAt(t, 3) ==> t[7] == tag[4] && TagAt(tag, 0) by {
      assert forall k :: 0 <= k < |tag| ==> t[3 + k] == tag[k];
    }
    assert t[3] == tag[0];
    UnknownTagNoMatchAt(t, 0);
    forall st: nat, bs: nat, be: nat ensures !FenceMatchAt(t, st, bs, be) {
      if FenceMatchAt(t, st, bs, be) {
        FencesOnlyAtEnds(mid, st);
      }
    }
    StripNoOp(t);
  }

  /** ```JSON is not the tag: such a block is returned only stripped. */
  lemma UppercaseTagBlockUnchanged(s: string)
    requires forall k :: 0 <= k < |s| ==> s[k] != '`'
    ensures ExtractJson("```JSON\n" + s + "\n```") == "```JSON\n" + s + "\n```"
  {
    assert "```JSON\n" + s + "\n```" == "```" + "JSON" + "\n" + s + "\n```";
    UnknownTagBlockUnchanged("JSON", s);
  }

  /** Nor is ```python. */
  lemma PythonTagBlockUnchanged(s: string)
    requires forall k :: 0 <= k < |s| ==> s[k] != '`'
    ensures ExtractJson("```python\n" + s + "\n```") == "```python\n" + s + "\n```"
  {
    assert "```python\n" + s + "\n```" == "```" + "python" + "\n" + s + "\n```";
    UnknownTagBlockUnchanged("python", s);
  }

  /** Prose in front of the block (without backticks) is skipped: the match
      starts at the fence. */
  lemma ProseBeforeFence(prose: string, s: string)
    requires forall k :: 0 <= k < |prose| ==> prose[k] != '`'
    requires |s| > 0 && s[0] == '{' && s[|s| - 1] == '}'
    ensures ExtractJson(prose + "```json\n" + s + "\n```") == s
  {
    assert prose + "```json\n" + s + "\n```" == FencedText(prose, "json", "\n", s, "\n");
    FencedBlockYieldsBody(prose, "json", "\n", s, "\n");
  }

  /** Greedy across blocks: with two fenced objects the capture runs from
      the first `{` to the last `}`, swallowing the fences between them. */
  lemma TwoBlocksMerge(a: string, mid: string, b: string)
    requires |a| > 0 && a[0] == '{' && a[|a| - 1] == '}'
    requires |b| > 0 && b[0] == '{' && b[|b| - 1] == '}'
    ensures ExtractJson("```json\n" + a + "\n```\n" + mid + "\n```json\n" + b + "\n```")
            == a + "\n```\n" + mid + "\n```json\n" + b
  {
    var body := a + "\n```\n" + mid + "\n```json\n" + b;
    assert body[0] == a[0] && body[|body| - 1] == b[|b| - 1];
    assert "```json\n" + a + "\n```\n" + mid + "\n```json\n" + b + "\n```"
           == "```json\n" + body + "\n```";
    JsonFencedYieldsBody(body);
  }
}
