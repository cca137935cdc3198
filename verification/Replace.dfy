/** Replacing a text by another (lib/string/replace.cpp), as a loop that may run for ever, and where it meets the
    promise to replace every occurrence. */
module Replacing {
  import opened Options
  import opened Splitting

  function Drop(text: string, n: nat): string {
    if |text| < n then "" else text[n..]
  }

  function Take(text: string, n: nat): string {
    if |text| < n then text else text[..n]
  }

  /** The part of an inserted substitute that the search sees again: it goes on |search| characters behind the
      match, whatever the length of the substitute. */
  function Rescanned(search: string, substitute: string): string { Drop(substitute, |search|) }

  /** What is still to be searched after replacing the match at i of what was to be searched. */
  function Next(rest: string, search: string, substitute: string, i: nat): string
    requires i + |search| <= |rest|
  {
    Drop(substitute + rest[i + |search|..], |search|)
  }

  /** What is to be searched after n rounds of the loop; None when the loop has ended before. */
  function After(rest: string, search: string, substitute: string, n: nat): Option<string>
    decreases n
  {
    if n == 0 then Some(rest)
    else
      match Find(rest, search, 0)
      case None => None
      case Some(i) => After(Next(rest, search, substitute, i), search, substitute, n - 1)
  }

  ghost predicate Ends(text: string, search: string, substitute: string) {
    exists n: nat :: After(text, search, substitute, n).None?
  }

  /** What a caller can check beforehand: nothing to replace, or nothing to replace in the rescanned part. */
  predicate Harmless(text: string, search: string, substitute: string) {
    !Contains(text, search) || !Contains(Rescanned(search, substitute), search)
  }

  lemma PrefixContains(front: string, rest: string, search: string)
    requires Contains(front, search)
    ensures Contains(front + rest, search)
  {
    hide Find;
    NoMatch(front, search, 0);
    NoMatch(front + rest, search, 0);
    var i: nat :| MatchAt(front, search, i);
    assert (front + rest)[i..i + |search|] == front[i..i + |search|];
    assert MatchAt(front + rest, search, i);
  }

  /** The rescanned part stands at the front of what is to be searched next. */
  lemma NextStarts(rest: string, search: string, substitute: string, i: nat)
    requires i + |search| <= |rest|
    ensures Rescanned(search, substitute) <= Next(rest, search, substitute, i)
    ensures |Next(rest, search, substitute, i)| <= |rest| - i - |search| + |Rescanned(search, substitute)|
  {
  }

  /** A match cannot lie within a front that contains none, so what is to be searched shrinks. */
  lemma NextShrinks(rest: string, search: string, substitute: string, i: nat)
    requires Find(rest, search, 0) == Some(i)
    requires !Contains(Rescanned(search, substitute), search) && Rescanned(search, substitute) <= rest
    ensures |Next(rest, search, substitute, i)| < |rest|
  {
    hide Find, Next;
    var front := Rescanned(search, substitute);
    NextStarts(rest, search, substitute, i);
    if i + |search| <= |front| {
      Leftmost(rest, search, 0, i);
      assert front[i..i + |search|] == rest[i..i + |search|];
      assert MatchAt(front, search, i);
      NoMatch(front, search, 0);
    }
  }

  lemma {:induction false} EndsWithin(rest: string, search: string, substitute: string, n: nat)
    requires !Contains(Rescanned(search, substitute), search) && Rescanned(search, substitute) <= rest
    requires n > |rest|
    ensures After(rest, search, substitute, n).None?
    decreases n
  {
    hide Find, Next, Rescanned, Contains;
    var i := Find(rest, search, 0);
    if i.Some? {
      NextStarts(rest, search, substitute, i.value);
      NextShrinks(rest, search, substitute, i.value);
      EndsWithin(Next(rest, search, substitute, i.value), search, substitute, n - 1);
    }
  }

  lemma {:induction false} GoesOn(rest: string, search: string, substitute: string, n: nat)
    requires Contains(rest, search) && Contains(Rescanned(search, substitute), search)
    ensures After(rest, search, substitute, n).Some?
    decreases n
  {
    hide Find, Next, Rescanned;
    if n > 0 {
      var i := Find(rest, search, 0).value;
      var next := Next(rest, search, substitute, i);
      NextStarts(rest, search, substitute, i);
      var front := Rescanned(search, substitute);
      PrefixContains(front, next[|front|..], search);
      assert front + next[|front|..] == next;
      GoesOn(next, search, substitute, n - 1);
    }
  }

  /** The loop ends exactly on harmless calls; an empty search is harmful on every text. */
  lemma EndsIff(text: string, search: string, substitute: string)
    ensures Ends(text, search, substitute) <==> Harmless(text, search, substitute)
    ensures search == "" ==> !Harmless(text, search, substitute)
    ensures search != "" && |substitute| <= |search| ==> Harmless(text, search, substitute)
  {
    hide Next, Rescanned, Find;
    EmptySearch(text, search, substitute);
    if Contains(text, search) && Contains(Rescanned(search, substitute), search) {
      forall n: nat ensures After(text, search, substitute, n).Some? {
        GoesOn(text, search, substitute, n);
      }
    } else if !Contains(text, search) {
      assert After(text, search, substitute, 1).None?;
    } else {
      var i := Find(text, search, 0).value;
      var next := Next(text, search, substitute, i);
      NextStarts(text, search, substitute, i);
      EndsWithin(next, search, substitute, |next| + 1);
      assert After(text, search, substitute, |next| + 2).None?;
    }
  }

  lemma EmptySearch(text: string, search: string, substitute: string)
    ensures search == "" ==> Contains(text, search) && Contains(Rescanned(search, substitute), search)
    ensures search != "" && |substitute| <= |search| ==> !Contains(Rescanned(search, substitute), search)
  {
  }

  /** What the loop makes of the text it still has to search. */
  function Outcome(rest: string, search: string, substitute: string): string
    requires Harmless(rest, search, substitute)
    decreases !(Rescanned(search, substitute) <= rest), |rest|
  {
    match Find(rest, search, 0)
    case None => rest
    case Some(i) =>
      NextHarmless(rest, search, substitute, i);
      rest[..i] + Take(substitute + rest[i + |search|..], |search|) +
      Outcome(Next(rest, search, substitute, i), search, substitute)
  }

  /** Where the loop finds its matches, each counted from where that search begins. */
  function Finds(rest: string, search: string, substitute: string): seq<int>
    requires Harmless(rest, search, substitute)
    decreases !(Rescanned(search, substitute) <= rest), |rest|
  {
    match Find(rest, search, 0)
    case None => []
    case Some(i) =>
      NextHarmless(rest, search, substitute, i);
      [i] + Finds(Next(rest, search, substitute, i), search, substitute)
  }

  lemma NextHarmless(rest: string, search: string, substitute: string, i: nat)
    requires Find(rest, search, 0) == Some(i) && Harmless(rest, search, substitute)
    ensures Harmless(Next(rest, search, substitute, i), search, substitute)
    ensures Rescanned(search, substitute) <= Next(rest, search, substitute, i)
    ensures Rescanned(search, substitute) <= rest ==> |Next(rest, search, substitute, i)| < |rest|
  {
    hide Find, Next, Rescanned;
    NextStarts(rest, search, substitute, i);
    if Rescanned(search, substitute) <= rest {
      NextShrinks(rest, search, substitute, i);
    }
  }

  /** The loop in step with split: each token, moved by the difference of the lengths, is found as it stands. */
  ghost predicate InStep(first: string, others: seq<string>, search: string, substitute: string)
    decreases |others|
  {
    if others == [] then !Contains(first, search)
    else
      && Cuts(first, search)
      && (|others| > 1 ==> |search| <= |substitute + others[0]|)
      && InStep(Drop(substitute + others[0], |search|), others[1..], search, substitute)
  }

  /** The matches that split cuts at, each counted from where the loop begins to search for it. */
  function Offsets(first: int, others: seq<string>, shift: int): seq<int>
    decreases |others|
  {
    if others == [] then [] else [first] + Offsets(|others[0]| + shift, others[1..], shift)
  }

  /** Joining, by the first token and the others. */
  function Chain(first: string, others: seq<string>, sep: string): string
    decreases |others|
  {
    if others == [] then first else first + sep + Chain(others[0], others[1..], sep)
  }

  lemma {:induction false} ChainIsJoin(tokens: seq<string>, sep: string)
    requires tokens != []
    ensures Join(tokens, sep) == Chain(tokens[0], tokens[1..], sep)
    decreases |tokens|
  {
    if |tokens| > 1 {
      ChainIsJoin(tokens[1..], sep);
    }
  }

  lemma DropFront(front: string, rest: string, n: nat)
    requires n <= |front|
    ensures Drop(front + rest, n) == Drop(front, n) + rest && Take(front + rest, n) == front[..n]
  {
  }

  lemma Regroup(a: string, b: string, c: string, d: string)
    ensures a + (b + c + d) == (a + b) + (c + d) && (a + b) + c == a + (b + c)
  {
  }

  /** Replacing behind the first token leaves the second to be searched, moved. */
  lemma NextOfChain(first: string, others: seq<string>, search: string, substitute: string)
    requires others != [] && (|others| > 1 ==> |search| <= |substitute + others[0]|)
    ensures Chain(first, others, search) == first + search + Chain(others[0], others[1..], search)
    ensures Next(Chain(first, others, search), search, substitute, |first|) ==
            Chain(Drop(substitute + others[0], |search|), others[1..], search)
  {
    hide Drop;
    var tail := Chain(others[0], others[1..], search);
    var rest := first + search + tail;
    assert rest[|first| + |search|..] == tail;
    if |others| > 1 {
      var behind := Chain(others[1], others[2..], search);
      assert others[1..][1..] == others[2..];
      DropFront(substitute + others[0], search + behind, |search|);
      Regroup(substitute, others[0], search, behind);
      Regroup(Drop(substitute + others[0], |search|), search, behind, "");
    }
  }

  lemma FindFirst(first: string, others: seq<string>, search: string)
    requires search != "" && others != []
    ensures Find(Chain(first, others, search), search, 0) == Some(|first|) <==> Cuts(first, search)
  {
    hide Find, Cuts;
    CutStays(first, search, Chain(others[0], others[1..], search));
  }

  /** The loop finds what split cuts at exactly when it stays in step. */
  lemma {:induction false} FoundIff(first: string, others: seq<string>, search: string, substitute: string)
    requires search != "" && Harmless(Chain(first, others, search), search, substitute)
    ensures InStep(first, others, search, substitute) <==>
            Finds(Chain(first, others, search), search, substitute) ==
            Offsets(|first|, others, |substitute| - |search|)
    decreases |others|
  {
    hide Find, Next, Drop, Cuts, Chain, Rescanned;
    var text := Chain(first, others, search);
    var shift := |substitute| - |search|;
    if others == [] {
      assert text == first by { OneToken(first, search); }
    } else {
      FindFirst(first, others, search);
      if Cuts(first, search) {
        NextHarmless(text, search, substitute, |first|);
        var next := Next(text, search, substitute, |first|);
        assert Finds(text, search, substitute) == [|first|] + Finds(next, search, substitute);
        assert Finds(text, search, substitute)[1..] == Finds(next, search, substitute);
        var offsets := Offsets(|others[0]| + shift, others[1..], shift);
        assert Offsets(|first|, others, shift)[1..] == offsets;
        if |others| > 1 && |substitute + others[0]| < |search| {
          assert offsets[0] < 0 && (Finds(next, search, substitute) == [] || Finds(next, search, substitute)[0] >= 0);
        } else {
          NextOfChain(first, others, search, substitute);
          var moved := Drop(substitute + others[0], |search|);
          FoundIff(moved, others[1..], search, substitute);
          MovedLength(substitute + others[0], |search|);
          SameOffsets(|moved|, |others[0]| + shift, others[1..], shift);
        }
      }
    }
  }

  lemma OneToken(first: string, sep: string)
    ensures Chain(first, [], sep) == first
  {
  }

  lemma MovedLength(text: string, n: nat)
    ensures n <= |text| ==> |Drop(text, n)| == |text| - n
  {
  }

  /** Of the last token no length is noted. */
  lemma SameOffsets(a: int, b: int, others: seq<string>, shift: int)
    requires a == b || others == []
    ensures Offsets(a, others, shift) == Offsets(b, others, shift)
  {
  }

  /** In step, every token is kept and the substitute stands between any two. */
  lemma {:induction false} OutcomeInStep(first: string, others: seq<string>, search: string, substitute: string)
    requires search != "" && Harmless(Chain(first, others, search), search, substitute)
    requires InStep(first, others, search, substitute)
    ensures Outcome(Chain(first, others, search), search, substitute) == Chain(first, others, substitute)
    decreases |others|
  {
    hide Find, Next, Drop, Take, Cuts, Chain, Rescanned;
    var text := Chain(first, others, search);
    if others == [] {
      OneToken(first, search);
      OneToken(first, substitute);
    } else {
      FindFirst(first, others, search);
      NextHarmless(text, search, substitute, |first|);
      NextOfChain(first, others, search, substitute);
      var tail := Chain(others[0], others[1..], search);
      var moved := Drop(substitute + others[0], |search|);
      OutcomeInStep(moved, others[1..], search, substitute);
      assert text[..|first|] == first && text[|first| + |search|..] == tail;
      Reassembled(others[0], others[1..], search, substitute);
      Regroup(first, Take(substitute + tail, |search|), Chain(moved, others[1..], substitute), "");
      TwoTokens(first, others, substitute);
      Regroup(first, substitute, Chain(others[0], others[1..], substitute), "");
    }
  }

  lemma TwoTokens(first: string, others: seq<string>, sep: string)
    requires others != []
    ensures Chain(first, others, sep) == first + sep + Chain(others[0], others[1..], sep)
  {
  }

  /** What is skipped and what is searched next make up the substitute and the rest. */
  lemma Reassembled(first: string, others: seq<string>, search: string, substitute: string)
    requires others != [] ==> |search| <= |substitute + first|
    ensures Take(substitute + Chain(first, others, search), |search|) +
            Chain(Drop(substitute + first, |search|), others, substitute) ==
            substitute + Chain(first, others, substitute)
  {
    var front := substitute + first;
    if others == [] {
      assert Take(front, |search|) + Drop(front, |search|) == front;
    } else {
      var before, behind := Chain(others[0], others[1..], search), Chain(others[0], others[1..], substitute);
      Regroup(substitute, first, search, before);
      DropFront(front, search + before, |search|);
      assert front[..|search|] + Drop(front, |search|) == front;
      Regroup(substitute, first, substitute, behind);
      Regroup(front[..|search|], Drop(front, |search|), substitute, behind);
    }
  }

  /** In step by tokens: each but the last, moved, is still cut off where it ends, and the last contains no match. */
  ghost predicate StaysCut(tokens: seq<string>, search: string, substitute: string) {
    && tokens != []
    && (forall k :: 1 <= k < |tokens| - 1 ==> MovedCut(tokens[k], search, substitute))
    && (|tokens| > 1 ==> !Contains(Drop(substitute + tokens[|tokens| - 1], |search|), search))
  }

  predicate MovedCut(token: string, search: string, substitute: string) {
    |search| <= |substitute + token| && Cuts(Drop(substitute + token, |search|), search)
  }

  lemma {:induction false} InStepIff(first: string, others: seq<string>, search: string, substitute: string)
    ensures InStep(first, others, search, substitute) <==>
            && (if others == [] then !Contains(first, search) else Cuts(first, search))
            && StaysCut([first] + others, search, substitute)
    decreases |others|
  {
    hide Cuts, Drop, Contains;
    if others != [] {
      var moved := Drop(substitute + others[0], |search|);
      InStepIff(moved, others[1..], search, substitute);
      var all, inner := [first] + others, [moved] + others[1..];
      assert forall k :: 1 <= k < |inner| ==> inner[k] == all[k + 1];
      assert forall k :: 2 <= k < |all| ==> all[k] == inner[k - 1];
      assert all[1] == others[0];
    }
  }

  /** A harmless call replaces what split cuts at, and nothing else, exactly when the moved tokens stay cut; then the
      outcome has the substitute between the tokens. */
  lemma ReplacesWhatSplitCuts(text: string, search: string, substitute: string)
    requires search != "" && Harmless(text, search, substitute)
    ensures var tokens := Split(text, search);
            && (StaysCut(tokens, search, substitute) <==>
                Finds(text, search, substitute) == Offsets(|tokens[0]|, tokens[1..], |substitute| - |search|))
            && (StaysCut(tokens, search, substitute) ==> Outcome(text, search, substitute) == Join(tokens, substitute))
  {
    hide Find, Cuts, Drop, Split, StaysCut, Contains;
    var tokens := Split(text, search);
    JoinSplit(text, search);
    SplitCanonical(text, search);
    ChainIsJoin(tokens, search);
    ChainIsJoin(tokens, substitute);
    InStepIff(tokens[0], tokens[1..], search, substitute);
    assert [tokens[0]] + tokens[1..] == tokens;
    FoundIff(tokens[0], tokens[1..], search, substitute);
    if StaysCut(tokens, search, substitute) {
      OutcomeInStep(tokens[0], tokens[1..], search, substitute);
    }
  }

  lemma SuffixFree(token: string, search: string, n: nat)
    requires n <= |token|
    ensures Cuts(token, search) ==> Cuts(token[n..], search)
    ensures !Contains(token, search) ==> !Contains(token[n..], search)
  {
    hide Find;
    var rest := token[n..];
    assert token == token[..n] + rest;
    assert (token + search)[n..] == rest + search;
    forall j: nat | j <= |rest|
      ensures MatchAt(token + search, search, n + j) <==> MatchAt(rest + search, search, j)
      ensures MatchAt(token, search, n + j) <==> MatchAt(rest, search, j)
    {
      MatchShift(token[..n], rest, search, j);
      assert token + search == token[..n] + (rest + search);
      MatchShift(token[..n], rest + search, search, j);
    }
    Leftmost(token + search, search, 0, |token|);
    Leftmost(rest + search, search, 0, |rest|);
    NoMatch(token, search, 0);
    NoMatch(rest, search, 0);
  }

  /** A shorter substitute passes over what follows a match: every occurrence is replaced exactly when no two lie
      closer together than the substitute is shorter. */
  lemma ShorterStaysCut(text: string, search: string, substitute: string)
    requires search != "" && |substitute| <= |search|
    ensures var tokens := Split(text, search);
            StaysCut(tokens, search, substitute) <==>
            forall k :: 1 <= k < |tokens| - 1 ==> |search| - |substitute| <= |tokens[k]|
  {
    hide Find, Split, Cuts, Contains, MatchAt;
    var tokens := Split(text, search);
    var shift := |search| - |substitute|;
    SplitCanonical(text, search);
    forall k | 1 <= k < |tokens|
      ensures shift <= |tokens[k]| ==> Drop(substitute + tokens[k], |search|) == tokens[k][shift..]
      ensures shift <= |tokens[k]| && Cuts(tokens[k], search) ==> Cuts(tokens[k][shift..], search)
      ensures !Contains(tokens[k], search) ==> !Contains(Drop(substitute + tokens[k], |search|), search)
    {
      ShortFree(search);
      if shift <= |tokens[k]| {
        SuffixFree(tokens[k], search, shift);
      } else {
        assert Drop(substitute + tokens[k], |search|) == "";
      }
    }
  }

  lemma ShortFree(search: string)
    ensures search != "" ==> !Contains("", search)
  {
  }

  /** With a substitute of the same length every occurrence is replaced, on every text. */
  lemma {:induction false} SameLengthReplacesAll(text: string, search: string, substitute: string)
    requires search != "" && |substitute| == |search|
    ensures Harmless(text, search, substitute)
    ensures Outcome(text, search, substitute) == Join(Split(text, search), substitute)
  {
    hide Find, Split, StaysCut, Contains, Rescanned;
    EndsIff(text, search, substitute);
    ShorterStaysCut(text, search, substitute);
    ReplacesWhatSplitCuts(text, search, substitute);
  }

  /** A shorter substitute: the occurrence right behind a replaced one is passed over. */
  lemma PassesOver()
    ensures Harmless("abab", "ab", "") && Outcome("abab", "ab", "") == "ab" && Join(Split("abab", "ab"), "") == ""
  {
    EndsIff("abab", "ab", "");
    SplitUnique("abab", "ab", ["", "", ""]);
    Leftmost("ab", "ab", 0, 0);
    Leftmost("abab", "ab", 0, 0);
    assert Next("abab", "ab", "", 0) == "";
  }

  /** A longer substitute: an occurrence that the text did not have is made and replaced again. */
  lemma ReplacesAgain()
    ensures Harmless("abb", "ab", "xya") && Outcome("abb", "ab", "xya") == "xyxya"
    ensures Join(Split("abb", "ab"), "xya") == "xyab"
  {
    assert Rescanned("ab", "xya") == "a" && !Contains("a", "ab") && !Contains("b", "ab");
    SplitUnique("abb", "ab", ["", "b"]);
    Leftmost("abb", "ab", 0, 0);
    Leftmost("ab", "ab", 0, 0);
    assert Next("abb", "ab", "xya", 0) == "ab";
    assert Next("ab", "ab", "xya", 0) == "a";
  }

  lemma Slice(text: string, position: nat, i: nat, n: nat)
    requires position <= i && i + n <= |text|
    ensures text[position..][i - position + n..] == text[i + n..]
    ensures text[..position] + text[position..][..i - position] == text[..i]
  {
  }

  lemma DropTake(front: string, rest: string, n: nat)
    ensures Drop(front + rest, |front| + n) == Drop(rest, n) && Take(front + rest, |front| + n) == front + Take(rest, n)
  {
  }

  /** One round on the whole text is one round on what is still to be searched. */
  lemma Round(text: string, position: nat, search: string, substitute: string, i: nat)
    requires Harmless(Drop(text, position), search, substitute) && Find(text, search, position) == Some(i)
    ensures var rest := Drop(text, position);
            var changed := text[..i] + substitute + text[i + |search|..];
            && Find(rest, search, 0) == Some(i - position) && i - position + |search| <= |rest|
            && Harmless(Next(rest, search, substitute, i - position), search, substitute)
            && Drop(changed, i + |search|) == Next(rest, search, substitute, i - position)
            && Take(text, position) + Outcome(rest, search, substitute) ==
               Take(changed, i + |search|) + Outcome(Next(rest, search, substitute, i - position), search, substitute)
  {
    hide Find, Rescanned, Contains, Harmless, Take, MatchAt;
    FindBehind(text, search, position);
    var rest := text[position..];
    var r := i - position;
    Slice(text, position, i, |search|);
    var w := substitute + text[i + |search|..];
    Regroup(text[..i], substitute, text[i + |search|..], "");
    DropTake(text[..i], w, |search|);
    NextHarmless(rest, search, substitute, r);
    var last := Outcome(Drop(w, |search|), search, substitute);
    Regroup(rest[..r], Take(w, |search|), last, "");
    Regroup(text[..position], rest[..r], Take(w, |search|) + last, "");
    Regroup(text[..i], Take(w, |search|), last, "");
    TakeWhole(text, position);
  }

  lemma TakeWhole(text: string, n: nat)
    ensures n <= |text| ==> Take(text, n) == text[..n]
  {
  }

  lemma NothingLeft(text: string, position: nat, search: string, substitute: string)
    requires Harmless(Drop(text, position), search, substitute) && Find(text, search, position).None?
    ensures Take(text, position) + Outcome(Drop(text, position), search, substitute) == text
  {
    hide Find, Rescanned, Contains;
    EmptySearch(Drop(text, position), search, substitute);
    if position <= |text| {
      FindBehind(text, search, position);
    } else {
      ShortFree(search);
      assert !Contains("", search);
    }
  }

  /** The loop on the text itself: everything before the position is settled. */
  method ReplaceString(original: string, search: string, substitute: string) returns (text: string)
    requires Harmless(original, search, substitute)
    ensures text == Outcome(original, search, substitute)
  {
    hide Find, Rescanned, Contains, Outcome, Drop, Take, Next, Harmless;
    text := original;
    var position: nat := 0;
    ghost var rest := original;
    AtStart(original);
    while Find(text, search, position).Some?
      invariant Harmless(rest, search, substitute)
      invariant rest == Drop(text, position)
      invariant Take(text, position) + Outcome(rest, search, substitute) == Outcome(original, search, substitute)
      decreases !(Rescanned(search, substitute) <= rest), |rest|
    {
      ghost var before := position;
      Round(text, position, search, substitute, Find(text, search, position).value);
      position := Find(text, search, position).value;
      NextHarmless(rest, search, substitute, position - before);
      rest := Next(rest, search, substitute, position - before);
      text := text[..position] + substitute + text[position + |search|..];
      position := position + |search|;
    }
    NothingLeft(text, position, search, substitute);
  }

  lemma AtStart(text: string)
    ensures Drop(text, 0) == text && forall s: string :: Take(text, 0) + s == s
  {
  }

  /** Every character by itself. */
  function Exchanged(text: string, search: char, substitute: char): string {
    seq(|text|, i requires 0 <= i < |text| => if text[i] == search then substitute else text[i])
  }

  /** Exchanging single characters is replacing texts of length one. */
  lemma OverloadsAgree(text: string, search: char, substitute: char)
    ensures Harmless(text, [search], [substitute])
    ensures Exchanged(text, search, substitute) == Outcome(text, [search], [substitute])
  {
    SameLengthReplacesAll(text, [search], [substitute]);
    ExchangedIsJoin(text, search, substitute);
  }

  lemma {:induction false} ExchangedIsJoin(text: string, search: char, substitute: char)
    ensures Exchanged(text, search, substitute) == Join(Split(text, [search]), [substitute])
    decreases |text|
  {
    hide Find;
    var cut := Find(text, [search], 0);
    SplitFirst(text, [search]);
    if cut.Some? {
      var front, rest := text[..cut.value], text[cut.value + 1..];
      PrefixFree(text, [search], cut.value);
      CharFree(front, search);
      CutApart(text, [search], cut.value);
      ExchangedIsJoin(rest, search, substitute);
      assert Split(text, [search])[1..] == Split(rest, [search]);
      ExchangedParts(front, rest, search, substitute);
    } else {
      WholeFree(text, [search]);
      CharFree(text, search);
      forall i | 0 <= i < |text| ensures text[i] != search { assert text[i] in text; }
      assert Exchanged(text, search, substitute) == text;
    }
  }

  lemma ExchangedParts(front: string, rest: string, search: char, substitute: char)
    requires search !in front
    ensures Exchanged(front + [search] + rest, search, substitute) ==
            front + [substitute] + Exchanged(rest, search, substitute)
  {
    forall i | 0 <= i < |front| ensures front[i] != search { assert front[i] in front; }
  }

  /** The overload with single characters, in place. */
  method ReplaceChar(text: array<char>, search: char, substitute: char)
    modifies text
    ensures text[..] == Exchanged(old(text[..]), search, substitute)
  {
    for i := 0 to text.Length
      invariant forall k :: i <= k < text.Length ==> text[k] == old(text[k])
      invariant forall k :: 0 <= k < i ==> text[k] == Exchanged(old(text[..]), search, substitute)[k]
    {
      if text[i] == search {
        text[i] := substitute;
      }
    }
  }
}
