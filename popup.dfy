/** The text-to-slug converter of the popup: `cleanTextToSlug` and the rule
    by which the cleaner's output box shows `''` for a blank input. */
module Popup {
  import JsString

  /** The characters a slug keeps: `[a-z0-9]`. */
  predicate IsSlugChar(c: char) {
    'a' <= c <= 'z' || '0' <= c <= '9'
  }

  /** An ASCII letter, in either case, or an ASCII digit. */
  predicate IsAsciiAlnum(c: char) {
    'a' <= c <= 'z' || 'A' <= c <= 'Z' || '0' <= c <= '9'
  }

  /** The combining diacritical marks `[\u0300-\u036f]` that are deleted
      after NFD normalisation. */
  predicate IsCombiningMark(c: char) {
    '\U{0300}' <= c <= '\U{036F}'
  }

  /** The shape every slug has: only `[a-z0-9-]`, no `-` at either end and
      never two `-` in a row. */
  predicate IsSlug(s: string) {
    && (forall k :: 0 <= k < |s| ==> IsSlugChar(s[k]) || s[k] == '-')
    && (s == [] || (s[0] != '-' && s[|s| - 1] != '-'))
    && NoDoubleDash(s)
  }

  predicate NoDoubleDash(s: string) {
    forall k :: 0 <= k < |s| - 1 ==> s[k] != '-' || s[k + 1] != '-'
  }

  // ---------------------------------------------------------------------
  // The steps of cleanTextToSlug, one function per chained call.
  // ---------------------------------------------------------------------

  /** `toLowerCase` on one character, for the ASCII letters. */
  function LowerChar(c: char): (d: char)
    ensures IsSlugChar(d) <==> IsAsciiAlnum(c)
    ensures IsSlugChar(c) || c == '-' ==> d == c
  {
    if 'A' <= c <= 'Z' then (c as int - 'A' as int + 'a' as int) as char else c
  }

  /** `value.toLowerCase()`, for the ASCII letters. */
  function LowerCase(s: string): (r: string)
    ensures |r| == |s|
    ensures forall k :: 0 <= k < |s| ==> (IsSlugChar(r[k]) <==> IsAsciiAlnum(s[k]))
  {
    seq(|s|, k requires 0 <= k < |s| => LowerChar(s[k]))
  }

  /** `.replace(/[\u0300-\u036f]/g, '')`. */
  function StripMarks(s: string): (r: string)
    ensures |r| <= |s|
    ensures forall k :: 0 <= k < |r| ==> !IsCombiningMark(r[k])
  {
    if s == [] then [] else (if IsCombiningMark(s[0]) then [] else [s[0]]) + StripMarks(s[1..])
  }

  /** The length of the leading run of `[a-z0-9]` of `s`. */
  function SlugRun(s: string): (n: nat)
    ensures n <= |s|
    ensures n < |s| ==> !IsSlugChar(s[n])
    ensures s != [] && IsSlugChar(s[0]) ==> n > 0
  {
    if s != [] && IsSlugChar(s[0]) then 1 + SlugRun(s[1..]) else 0
  }

  /** The length of the leading run of characters outside `[a-z0-9]`. */
  function OtherRun(s: string): (n: nat)
    ensures n <= |s|
    ensures n < |s| ==> IsSlugChar(s[n])
    ensures s != [] && !IsSlugChar(s[0]) ==> n > 0
  {
    if s != [] && !IsSlugChar(s[0]) then 1 + OtherRun(s[1..]) else 0
  }

  /** `.replace(/[^a-z0-9]+/g, '-')`: every maximal run of characters
      outside `[a-z0-9]` becomes a single `-`. */
  function DashRuns(s: string): (r: string)
    ensures |r| <= |s|
    ensures r == [] <==> s == []
    decreases |s|
  {
    if s == [] then
      []
    else if IsSlugChar(s[0]) then
      [s[0]] + DashRuns(s[1..])
    else
      "-" + DashRuns(s[OtherRun(s)..])
  }

  /** The number of `-` at the start of `s`. */
  function LeadingDashes(s: string): (n: nat)
    ensures n <= |s|
    ensures n < |s| ==> s[n] != '-'
    ensures s != [] && s[0] == '-' ==> n > 0
  {
    if s != [] && s[0] == '-' then 1 + LeadingDashes(s[1..]) else 0
  }

  /** The number of `-` at the end of `s`. */
  function TrailingDashes(s: string): (n: nat)
    ensures n <= |s|
    ensures n < |s| ==> s[|s| - 1 - n] != '-'
  {
    if s != [] && s[|s| - 1] == '-' then 1 + TrailingDashes(s[..|s| - 1]) else 0
  }

  /** `.replace(/^-+|-+$/g, '')`: the leading and the trailing dashes go. */
  function TrimDashes(s: string): (r: string)
    ensures |r| <= |s|
    ensures r == [] || (r[0] != '-' && r[|r| - 1] != '-')
  {
    var t := s[LeadingDashes(s)..];
    t[..|t| - TrailingDashes(t)]
  }

  /** `.replace(/-{2,}/g, '-')`: every run of `-` becomes a single `-`. */
  function CollapseDashes(s: string): (r: string)
    ensures |r| <= |s|
    ensures s != [] ==> r != [] && r[0] == s[0]
    ensures NoDoubleDash(r)
    decreases |s|
  {
    if s == [] then
      []
    else if s[0] == '-' then
      "-" + CollapseDashes(s[LeadingDashes(s)..])
    else
      [s[0]] + CollapseDashes(s[1..])
  }

  /** What remains of the input after lowercasing and removing the marks:
      the text the `[^a-z0-9]+` replacement works on. */
  function Prepared(value: string): string {
    StripMarks(LowerCase(value))
  }

  /** `cleanTextToSlug(value)`. The NFD normalisation step is the identity
      here: the input is taken to be in decomposed form already. */
  function CleanTextToSlug(value: string): (slug: string)
    ensures IsSlug(slug)
  {
    var dashed := DashRuns(Prepared(value));
    var trimmed := TrimDashes(dashed);
    DashRunsShape(Prepared(value));
    TrimDashesShape(dashed);
    CollapseIdentity(trimmed);
    CollapseDashes(trimmed)
  }

  /** The `updateOutput` rule: the trimmed input is converted, and a blank
      one gives `''`. The output is empty exactly when the input holds no
      ASCII letter or digit. */
  function UpdateOutput(input: string): (output: string)
    ensures JsString.Trim(input) == [] ==> output == []
    ensures output == [] <==> forall k :: 0 <= k < |input| ==> !IsAsciiAlnum(input[k])
    ensures IsSlug(output)
  {
    var rawValue := JsString.Trim(input);
    var i :| JsString.TrimmedAt(input, rawValue, i);
    TrimKeepsAlnums(input, rawValue, i);
    if rawValue == [] then
      []
    else
      SlugEmptyIffNoAlnum(rawValue);
      CleanTextToSlug(rawValue)
  }

  // ---------------------------------------------------------------------
  // A reference definition: the words of the text, joined by `-`.
  // ---------------------------------------------------------------------

  /** The maximal runs of `[a-z0-9]` of `s`, in order. */
  function Words(s: string): seq<string>
    decreases |s|
  {
    if s == [] then
      []
    else if !IsSlugChar(s[0]) then
      Words(s[OtherRun(s)..])
    else
      [s[..SlugRun(s)]] + Words(s[SlugRun(s)..])
  }

  /** The words joined with one `-` between neighbours. */
  function JoinDash(ws: seq<string>): string {
    if ws == [] then [] else if |ws| == 1 then ws[0] else ws[0] + "-" + JoinDash(ws[1..])
  }

  /** The letters and digits of `s`, in order. */
  function Alnums(s: string): string {
    if s == [] then [] else (if IsSlugChar(s[0]) then [s[0]] else []) + Alnums(s[1..])
  }

  // ---------------------------------------------------------------------
  // Lemmas
  // ---------------------------------------------------------------------

  /** The slug is the words of the prepared text joined by single dashes:
      each maximal run of other characters between two letters or digits
      becomes exactly one `-`, and runs at either end vanish. */
  lemma {:induction false} SlugIsJoinedWords(value: string)
    ensures CleanTextToSlug(value) == JoinDash(Words(Prepared(value)))
  {
    var t := Prepared(value);
    var dashed := DashRuns(t);
    DashRunsAsWords(t);
    DashRunsShape(t);
    WordsShape(t);
    JoinDashShape(Words(t));
    var j := JoinDash(Words(t));
    var lead := Lead(t);
    var tail := Tail(t);
    TrimAround(lead, j, tail);
    TrimDashesShape(dashed);
    CollapseIdentity(TrimDashes(dashed));
  }

  /** The letters and digits of the lowercased input come out in the same
      order, and nothing else but `-` is added. */
  lemma {:induction false} SlugKeepsAlnums(value: string)
    ensures Alnums(CleanTextToSlug(value)) == Alnums(LowerCase(value))
  {
    var lower := LowerCase(value);
    var t := StripMarks(lower);
    var j := JoinDash(Words(t));
    var lead := Lead(t);
    var tail := Tail(t);
    SlugIsJoinedWords(value);
    assert CleanTextToSlug(value) == j;
    assert Alnums(lead) == [] && Alnums(tail) == [];
    calc {
      Alnums(j);
      Alnums(lead) + Alnums(j) + Alnums(tail);
      { AlnumsConcat(lead, j); }
      Alnums(lead + j) + Alnums(tail);
      { AlnumsConcat(lead + j, tail); }
      Alnums(lead + j + tail);
      { DashRunsAsWords(t); }
      Alnums(DashRuns(t));
      { AlnumsDashRuns(t); }
      Alnums(t);
      { AlnumsStripMarks(lower); }
      Alnums(lower);
    }
  }

  /** A text without ASCII letters or digits, and only such a text, gives the
      empty slug. */
  lemma {:induction false} SlugEmptyIffNoAlnum(value: string)
    ensures CleanTextToSlug(value) == [] <==> forall k :: 0 <= k < |value| ==> !IsAsciiAlnum(value[k])
  {
    var t := Prepared(value);
    SlugIsJoinedWords(value);
    WordsShape(t);
    JoinDashShape(Words(t));
    WordsEmptyIff(t);
    AlnumsEmptyIff(t);
    AlnumsStripMarks(LowerCase(value));
    AlnumsEmptyIff(LowerCase(value));
    forall k | 0 <= k < |value|
      ensures IsSlugChar(LowerCase(value)[k]) <==> IsAsciiAlnum(value[k])
    {
    }
  }

  /** Converting a slug again changes nothing. */
  lemma SlugIdempotent(value: string)
    ensures CleanTextToSlug(CleanTextToSlug(value)) == CleanTextToSlug(value)
  {
    var s := CleanTextToSlug(value);
    LowerCaseOfSlugChars(s);
    StripMarksOfSlugChars(s);
    DashRunsOfSlug(s);
    TrimDashesShape(s);
    CollapseIdentity(s);
    assert Prepared(s) == s;
  }

  /** The final `.replace(/-{2,}/g, '-')` never changes anything: the
      `[^a-z0-9]+` replacement already leaves no two dashes together. */
  lemma CollapseIsRedundant(value: string)
    ensures CollapseDashes(TrimDashes(DashRuns(Prepared(value)))) == TrimDashes(DashRuns(Prepared(value)))
  {
    DashRunsShape(Prepared(value));
    TrimDashesShape(DashRuns(Prepared(value)));
    CollapseIdentity(TrimDashes(DashRuns(Prepared(value))));
  }

  // ---------------------------------------------------------------------
  // Helper lemmas
  // ---------------------------------------------------------------------

  /** What the dash replacement produces: only `[a-z0-9-]`, never two dashes
      in a row, and a first character that tells how the text began. */
  lemma {:induction false} DashRunsShape(s: string)
    ensures forall k :: 0 <= k < |DashRuns(s)| ==> IsSlugChar(DashRuns(s)[k]) || DashRuns(s)[k] == '-'
    ensures NoDoubleDash(DashRuns(s))
    ensures s != [] ==> DashRuns(s) != [] && DashRuns(s)[0] == (if IsSlugChar(s[0]) then s[0] else '-')
    decreases |s|
  {
    if s != [] {
      var rest := if IsSlugChar(s[0]) then s[1..] else s[OtherRun(s)..];
      var head := if IsSlugChar(s[0]) then s[0] else '-';
      DashRunsShape(rest);
      var d := DashRuns(rest);
      assert DashRuns(s) == [head] + d;
      assert !IsSlugChar(s[0]) ==> d == [] || d[0] != '-';
      forall k | 0 <= k < |DashRuns(s)| - 1
        ensures DashRuns(s)[k] != '-' || DashRuns(s)[k + 1] != '-'
      {
        if k > 0 {
          assert DashRuns(s)[k] == d[k - 1] && DashRuns(s)[k + 1] == d[k];
        }
      }
    }
  }

  /** The leading slug run consists of slug characters. */
  lemma {:induction false} SlugRunChars(s: string)
    ensures forall k :: 0 <= k < SlugRun(s) ==> IsSlugChar(s[k])
  {
    if s != [] && IsSlugChar(s[0]) {
      SlugRunChars(s[1..]);
      assert forall k :: 1 <= k < |s| ==> s[k] == s[1..][k - 1];
    }
  }

  /** The leading other run holds no slug character. */
  lemma {:induction false} OtherRunChars(s: string)
    ensures forall k :: 0 <= k < OtherRun(s) ==> !IsSlugChar(s[k])
  {
    if s != [] && !IsSlugChar(s[0]) {
      OtherRunChars(s[1..]);
      assert forall k :: 1 <= k < |s| ==> s[k] == s[1..][k - 1];
    }
  }

  /** Every word is a non-empty run of slug characters. */
  lemma {:induction false} WordsShape(s: string)
    ensures forall i :: 0 <= i < |Words(s)| ==> Words(s)[i] != [] && forall k :: 0 <= k < |Words(s)[i]| ==> IsSlugChar(Words(s)[i][k])
    decreases |s|
  {
    if s != [] {
      if !IsSlugChar(s[0]) {
        WordsShape(s[OtherRun(s)..]);
      } else {
        var n := SlugRun(s);
        SlugRunChars(s);
        WordsShape(s[n..]);
        assert Words(s) == [s[..n]] + Words(s[n..]);
      }
    }
  }

  /** Dash trimming of a dashed text leaves a text of slug shape, and leaves
      a slug unchanged. */
  lemma TrimDashesShape(s: string)
    requires forall k :: 0 <= k < |s| ==> IsSlugChar(s[k]) || s[k] == '-'
    requires NoDoubleDash(s)
    ensures IsSlug(TrimDashes(s))
    ensures IsSlug(s) ==> TrimDashes(s) == s
  {
    var a := LeadingDashes(s);
    var t := s[a..];
    var b := TrailingDashes(t);
    var r := t[..|t| - b];
    assert forall k :: 0 <= k < |r| ==> r[k] == s[a + k];
    if r != [] {
      assert r[0] == s[a];
      assert r[|r| - 1] == t[|t| - 1 - b];
    }
    if IsSlug(s) {
      assert a == 0;
      assert t == s;
      assert b == 0;
    }
  }

  /** Collapsing leaves a text without double dashes unchanged. */
  lemma {:induction false} CollapseIdentity(s: string)
    requires NoDoubleDash(s)
    ensures CollapseDashes(s) == s
    decreases |s|
  {
    if s != [] {
      if s[0] == '-' {
        assert |s| > 1 ==> s[1] != '-';
        assert LeadingDashes(s) == 1;
      }
      assert NoDoubleDash(s[1..]);
      CollapseIdentity(s[1..]);
    }
  }

  /** The dash replacement splits after the leading word. */
  lemma {:induction false} DashRunsSplit(s: string)
    ensures DashRuns(s) == s[..SlugRun(s)] + DashRuns(s[SlugRun(s)..])
    decreases |s|
  {
    var n := SlugRun(s);
    if s != [] && IsSlugChar(s[0]) {
      var t := s[1..];
      var m := SlugRun(t);
      assert n == 1 + m;
      DashRunsSplit(t);
      assert t[m..] == s[n..];
      assert [s[0]] + t[..m] == s[..n];
      calc {
        DashRuns(s);
        [s[0]] + DashRuns(t);
        [s[0]] + (t[..m] + DashRuns(s[n..]));
        ([s[0]] + t[..m]) + DashRuns(s[n..]);
      }
    } else {
      assert n == 0;
      assert s[..0] == [] && s[0..] == s;
    }
  }

  /** The `-` the dash replacement puts in front of the words: one when the
      text starts outside `[a-z0-9]`. */
  function Lead(s: string): string {
    if s != [] && !IsSlugChar(s[0]) then "-" else ""
  }

  /** The `-` the dash replacement puts after the words: one when the text
      ends outside `[a-z0-9]` after some word. */
  function Tail(s: string): string {
    if s != [] && Words(s) != [] && !IsSlugChar(s[|s| - 1]) then "-" else ""
  }

  /** The dashed text is the joined words between `Lead` and `Tail`. */
  lemma {:induction false} DashRunsAsWords(s: string)
    ensures DashRuns(s) == Lead(s) + JoinDash(Words(s)) + Tail(s)
    decreases |s|, 1
  {
    if s == [] {
    } else if !IsSlugChar(s[0]) {
      DashRunsAsWordsOther(s);
    } else {
      DashRunsAsWordsWord(s);
    }
  }

  lemma {:induction false} DashRunsAsWordsOther(s: string)
    requires s != [] && !IsSlugChar(s[0])
    ensures DashRuns(s) == Lead(s) + JoinDash(Words(s)) + Tail(s)
    decreases |s|, 0
  {
    var u := s[OtherRun(s)..];
    DashRunsAsWords(u);
    assert Lead(u) == "";
    assert Words(s) == Words(u);
    if u != [] {
      assert u[|u| - 1] == s[|s| - 1];
    }
    var j := JoinDash(Words(u));
    var t := Tail(u);
    assert t == Tail(s);
    assert DashRuns(s) == "-" + DashRuns(u);
    DropEmpty("-", j, t);
  }

  lemma {:induction false} DashRunsAsWordsWord(s: string)
    requires s != [] && IsSlugChar(s[0])
    ensures DashRuns(s) == Lead(s) + JoinDash(Words(s)) + Tail(s)
    decreases |s|, 0
  {
    var rest := s[SlugRun(s)..];
    DashRunsSplit(s);
    if rest == [] {
      WordAtEnd(s);
    } else {
      DashRunsAsWords(rest);
      if Words(rest) == [] {
        assert DashRuns(rest) == "-";
        WordThenOther(s);
      } else {
        WordThenWords(s);
      }
    }
  }

  /** The case of a text that is a single word. */
  lemma WordAtEnd(s: string)
    requires s != [] && IsSlugChar(s[0]) && SlugRun(s) == |s|
    ensures DashRuns(s) == Lead(s) + JoinDash(Words(s)) + Tail(s)
  {
    var n := SlugRun(s);
    DashRunsSplit(s);
    WordsSplit(s);
    SlugRunChars(s);
    assert s[..n] == s && s[n..] == [];
    assert DashRuns(s[n..]) == [] && Words(s[n..]) == [];
    assert DashRuns(s) == s;
    assert Words(s) == [s];
    assert JoinDash([s]) == s;
    assert IsSlugChar(s[|s| - 1]);
    assert Lead(s) == "" && Tail(s) == "";
  }

  /** The words of a text that starts with one. */
  lemma WordsSplit(s: string)
    requires s != [] && IsSlugChar(s[0])
    ensures Words(s) == [s[..SlugRun(s)]] + Words(s[SlugRun(s)..])
  {
  }

  /** The case of a word followed by characters none of which starts a word. */
  lemma WordThenOther(s: string)
    requires s != [] && IsSlugChar(s[0]) && SlugRun(s) < |s|
    requires Words(s[SlugRun(s)..]) == []
    requires DashRuns(s) == s[..SlugRun(s)] + "-"
    ensures DashRuns(s) == Lead(s) + JoinDash(Words(s)) + Tail(s)
  {
    var w := s[..SlugRun(s)];
    OneWordThenOther(s);
    assert JoinDash([w]) == w;
    calc {
      Lead(s) + JoinDash(Words(s)) + Tail(s);
      "" + JoinDash([w]) + "-";
      "" + w + "-";
      { assert "" + w == w; }
      w + "-";
    }
  }

  /** A word followed by characters none of which starts a word: one word,
      and a trailing `-`. */
  lemma OneWordThenOther(s: string)
    requires s != [] && IsSlugChar(s[0]) && SlugRun(s) < |s|
    requires Words(s[SlugRun(s)..]) == []
    ensures Words(s) == [s[..SlugRun(s)]] && Lead(s) == "" && Tail(s) == "-"
  {
    var rest := s[SlugRun(s)..];
    WordsSplit(s);
    NoWordsLast(rest);
    assert s[|s| - 1] == rest[|rest| - 1];
  }

  /** A non-empty text without words ends outside `[a-z0-9]`. */
  lemma NoWordsLast(s: string)
    requires s != [] && Words(s) == []
    ensures !IsSlugChar(s[|s| - 1])
  {
    WordsEmptyIff(s);
  }

  /** The case of a word followed by more words. */
  lemma WordThenWords(s: string)
    requires s != [] && IsSlugChar(s[0]) && SlugRun(s) < |s|
    requires DashRuns(s) == s[..SlugRun(s)] + DashRuns(s[SlugRun(s)..])
    requires var rest := s[SlugRun(s)..];
      Words(rest) != [] && DashRuns(rest) == Lead(rest) + JoinDash(Words(rest)) + Tail(rest)
    ensures DashRuns(s) == Lead(s) + JoinDash(Words(s)) + Tail(s)
  {
    var n := SlugRun(s);
    var w := s[..n];
    var rest := s[n..];
    var ws := Words(rest);
    WordsSplit(s);
    assert Words(s) == [w] + ws;
    assert rest[|rest| - 1] == s[|s| - 1];
    var j := JoinDash(ws);
    var t := Tail(rest);
    assert Tail(s) == t;
    assert Lead(rest) == "-";
    assert Lead(s) == "";
    calc {
      DashRuns(s);
      w + DashRuns(rest);
      w + ("-" + j + t);
      { AppendAssoc(w, j, t); }
      "" + (w + "-" + j) + t;
      { JoinDashCons(w, ws); }
      "" + JoinDash([w] + ws) + t;
    }
  }

  lemma JoinDashCons(w: string, ws: seq<string>)
    requires ws != []
    ensures JoinDash([w] + ws) == w + "-" + JoinDash(ws)
  {
    assert ([w] + ws)[1..] == ws;
  }

  lemma AppendAssoc(w: string, j: string, t: string)
    ensures w + ("-" + j + t) == "" + (w + "-" + j) + t
  {
  }

  lemma DropEmpty(d: string, j: string, t: string)
    ensures d + ("" + j + t) == d + j + t
  {
  }

  /** A text has no words exactly when it has no slug characters. */
  lemma {:induction false} WordsEmptyIff(s: string)
    ensures Words(s) == [] <==> forall k :: 0 <= k < |s| ==> !IsSlugChar(s[k])
    decreases |s|
  {
    if s != [] && !IsSlugChar(s[0]) {
      var n := OtherRun(s);
      var u := s[n..];
      WordsEmptyIff(u);
      OtherRunChars(s);
      assert forall k :: n <= k < |s| ==> s[k] == u[k - n];
    }
  }

  /** Joined words are empty exactly when there are no words, and otherwise
      start and end on a slug character. */
  lemma {:induction false} JoinDashShape(ws: seq<string>)
    requires forall i :: 0 <= i < |ws| ==> ws[i] != [] && forall k :: 0 <= k < |ws[i]| ==> IsSlugChar(ws[i][k])
    ensures JoinDash(ws) == [] <==> ws == []
    ensures JoinDash(ws) != [] ==> JoinDash(ws)[0] != '-' && JoinDash(ws)[|JoinDash(ws)| - 1] != '-'
  {
    if |ws| > 1 {
      JoinDashShape(ws[1..]);
      var j := JoinDash(ws[1..]);
      assert JoinDash(ws) == ws[0] + "-" + j;
      assert JoinDash(ws)[0] == ws[0][0];
      assert JoinDash(ws)[|JoinDash(ws)| - 1] == j[|j| - 1];
    } else if |ws| == 1 {
      assert IsSlugChar(ws[0][0]) && IsSlugChar(ws[0][|ws[0]| - 1]);
    }
  }

  /** Trimming dashes off `lead + j + tail` leaves `j`. */
  lemma TrimAround(lead: string, j: string, tail: string)
    requires lead == "" || lead == "-"
    requires tail == "" || tail == "-"
    requires j == [] ==> tail == ""
    requires j != [] ==> j[0] != '-' && j[|j| - 1] != '-'
    ensures TrimDashes(lead + j + tail) == j
  {
    if j == [] {
      if lead == "-" {
        assert lead + j + tail == "-";
        assert LeadingDashes("-") == 1 + LeadingDashes([]);
      } else {
        assert lead + j + tail == [];
      }
    } else {
      assert lead + j + tail == lead + (j + tail);
      LeadingDashesOne(lead, j + tail);
      TrailingDashesOne(j, tail);
    }
  }

  /** At most one `-` before a text that does not start with one. */
  lemma LeadingDashesOne(lead: string, rest: string)
    requires lead == "" || lead == "-"
    requires rest != [] && rest[0] != '-'
    ensures LeadingDashes(lead + rest) == |lead|
    ensures (lead + rest)[|lead|..] == rest
  {
    if lead == "-" {
      assert (lead + rest)[1..] == rest;
      assert LeadingDashes(rest) == 0;
    } else {
      assert lead + rest == rest;
    }
  }

  /** At most one `-` after a text that does not end with one. */
  lemma TrailingDashesOne(j: string, tail: string)
    requires tail == "" || tail == "-"
    requires j != [] && j[|j| - 1] != '-'
    ensures TrailingDashes(j + tail) == |tail|
    ensures (j + tail)[..|j + tail| - |tail|] == j
  {
    var t := j + tail;
    if tail == "-" {
      assert t[..|t| - 1] == j;
      assert TrailingDashes(j) == 0;
    } else {
      assert t == j;
    }
  }

  lemma {:induction false} AlnumsConcat(a: string, b: string)
    ensures Alnums(a + b) == Alnums(a) + Alnums(b)
  {
    if a != [] {
      assert (a + b)[0] == a[0];
      assert (a + b)[1..] == a[1..] + b;
      AlnumsConcat(a[1..], b);
      var h := if IsSlugChar(a[0]) then [a[0]] else [];
      calc {
        Alnums(a + b);
        h + Alnums(a[1..] + b);
        h + (Alnums(a[1..]) + Alnums(b));
        (h + Alnums(a[1..])) + Alnums(b);
      }
    } else {
      assert a + b == b;
    }
  }

  /** Skipping non-slug characters loses no letter or digit. */
  lemma {:induction false} AlnumsSkipOther(s: string)
    ensures Alnums(s[OtherRun(s)..]) == Alnums(s)
  {
    if s != [] && !IsSlugChar(s[0]) {
      AlnumsSkipOther(s[1..]);
      assert s[1..][OtherRun(s[1..])..] == s[OtherRun(s)..];
    } else {
      assert s[0..] == s;
    }
  }

  /** The dash replacement keeps the letters and digits in order. */
  lemma {:induction false} AlnumsDashRuns(s: string)
    ensures Alnums(DashRuns(s)) == Alnums(s)
    decreases |s|
  {
    if s != [] {
      if IsSlugChar(s[0]) {
        AlnumsDashRuns(s[1..]);
        assert ([s[0]] + DashRuns(s[1..]))[1..] == DashRuns(s[1..]);
      } else {
        var u := s[OtherRun(s)..];
        AlnumsDashRuns(u);
        AlnumsSkipOther(s);
        assert ("-" + DashRuns(u))[1..] == DashRuns(u);
      }
    }
  }

  /** Removing the combining marks loses no letter or digit. */
  lemma {:induction false} AlnumsStripMarks(s: string)
    ensures Alnums(StripMarks(s)) == Alnums(s)
  {
    if s != [] {
      AlnumsStripMarks(s[1..]);
      var h := if IsCombiningMark(s[0]) then [] else [s[0]];
      AlnumsConcat(h, StripMarks(s[1..]));
    }
  }

  lemma {:induction false} AlnumsEmptyIff(s: string)
    ensures Alnums(s) == [] <==> forall k :: 0 <= k < |s| ==> !IsSlugChar(s[k])
  {
    if s != [] {
      AlnumsEmptyIff(s[1..]);
      assert forall k :: 1 <= k < |s| ==> s[k] == s[1..][k - 1];
    }
  }

  /** A text of slug characters and dashes is already lower case. */
  lemma LowerCaseOfSlugChars(s: string)
    requires forall k :: 0 <= k < |s| ==> IsSlugChar(s[k]) || s[k] == '-'
    ensures LowerCase(s) == s
  {
    forall k | 0 <= k < |s| ensures LowerCase(s)[k] == s[k] {
      assert LowerChar(s[k]) == s[k];
    }
  }

  /** A text of slug characters and dashes has no marks to strip. */
  lemma {:induction false} StripMarksOfSlugChars(s: string)
    requires forall k :: 0 <= k < |s| ==> IsSlugChar(s[k]) || s[k] == '-'
    ensures StripMarks(s) == s
  {
    if s != [] {
      StripMarksOfSlugChars(s[1..]);
    }
  }

  /** The dash replacement leaves a slug unchanged. */
  lemma {:induction false} DashRunsOfSlug(s: string)
    requires forall k :: 0 <= k < |s| ==> IsSlugChar(s[k]) || s[k] == '-'
    requires NoDoubleDash(s)
    ensures DashRuns(s) == s
    decreases |s|
  {
    if s != [] {
      if s[0] == '-' {
        assert |s| > 1 ==> IsSlugChar(s[1]);
        assert OtherRun(s) == 1;
      }
      assert NoDoubleDash(s[1..]);
      DashRunsOfSlug(s[1..]);
    }
  }

  /** Trimming whitespace removes no ASCII letter or digit. */
  lemma TrimKeepsAlnums(s: string, r: string, i: int)
    requires JsString.TrimmedAt(s, r, i)
    ensures (forall k :: 0 <= k < |s| ==> !IsAsciiAlnum(s[k])) <==> (forall k :: 0 <= k < |r| ==> !IsAsciiAlnum(r[k]))
  {
    forall k | 0 <= k < |r| ensures r[k] == s[i + k] { }
    forall k | 0 <= k < |s| && IsAsciiAlnum(s[k]) ensures i <= k < i + |r| && r[k - i] == s[k] {
      assert !JsString.IsWhitespace(s[k]);
    }
  }
}
