/** Scanning the input for one of a list of keywords, ignoring case. */
module Keywords {
  import opened Streams

  function Upper(c: char): char {
    if 'a' <= c <= 'z' then c - 'a' + 'A' else c
  }

  /** The first n characters from `start` on are the first n characters of the keyword. */
  predicate Matches(keyword: string, text: string, start: nat, n: nat) {
    && n <= |keyword| && start + n <= |text|
    && forall i | 0 <= i < n :: Upper(text[start + i]) == Upper(keyword[i])
  }

  predicate MatchesSome(keywords: seq<string>, text: string, start: nat, n: nat) {
    exists k | 0 <= k < |keywords| :: Matches(keywords[k], text, start, n)
  }

  /** n is the length of the longest piece of input that begins some keyword. */
  ghost predicate Longest(keywords: seq<string>, text: string, start: nat, n: nat) {
    && (n > 0 ==> MatchesSome(keywords, text, start, n))
    && forall m: nat | m > n :: !MatchesSome(keywords, text, start, m)
  }

  /** The k-th keyword is the input read, all of it and no more. */
  predicate IsKeyword(keywords: seq<string>, text: string, start: nat, n: nat, k: nat)
    requires k < |keywords|
  {
    |keywords[k]| == n && Matches(keywords[k], text, start, n)
  }

  // ---------- Upper and lower case ----------

  /** The lower case and the upper case of one letter. */
  predicate LowerAndUpper(a: char, b: char) {
    'a' <= a <= 'z' && 'A' <= b <= 'Z' && a as int - 'a' as int == b as int - 'A' as int
  }

  predicate SameButCase(s: string, t: string) {
    |s| == |t| && forall i | 0 <= i < |s| :: s[i] == t[i] || LowerAndUpper(s[i], t[i]) || LowerAndUpper(t[i], s[i])
  }

  /** Characters match exactly when they are equal or the two cases of one letter. */
  lemma CaseIgnored(a: char, b: char)
    ensures Upper(a) == Upper(b) <==> a == b || LowerAndUpper(a, b) || LowerAndUpper(b, a)
  {
  }

  /** So input matches the beginning of a keyword exactly when it is that but for the case. */
  lemma MatchesExactly(keyword: string, text: string, start: nat, n: nat)
    ensures Matches(keyword, text, start, n)
            <==> n <= |keyword| && start + n <= |text| && SameButCase(text[start..start + n], keyword[..n])
  {
    hide Upper, LowerAndUpper;
    if n <= |keyword| && start + n <= |text| {
      forall i | 0 <= i < n
        ensures text[start..start + n][i] == text[start + i] && keyword[..n][i] == keyword[i]
        ensures Upper(text[start + i]) == Upper(keyword[i])
                <==> text[start + i] == keyword[i] || LowerAndUpper(text[start + i], keyword[i])
                     || LowerAndUpper(keyword[i], text[start + i])
      {
        CaseIgnored(text[start + i], keyword[i]);
      }
      if SameButCase(text[start..start + n], keyword[..n]) {
        forall i | 0 <= i < n ensures Upper(text[start + i]) == Upper(keyword[i]) {
          assert text[start..start + n][i] == text[start + i] && keyword[..n][i] == keyword[i];
        }
      }
    }
  }

  lemma MatchesEither(keyword: string, keyword': string, text: string, text': string, start: nat, n: nat)
    requires SameButCase(keyword, keyword') && SameButCase(text, text')
    ensures Matches(keyword, text, start, n) <==> Matches(keyword', text', start, n)
  {
    hide Upper, LowerAndUpper;
    if n <= |keyword| && start + n <= |text| {
      forall i | 0 <= i < n
        ensures Upper(text[start + i]) == Upper(keyword[i]) <==> Upper(text'[start + i]) == Upper(keyword'[i])
      {
        CaseIgnored(text[start + i], text'[start + i]);
        CaseIgnored(keyword[i], keyword'[i]);
      }
    }
  }

  /** Another case of the input or of the keywords changes neither what a scan consumes nor what it finds. */
  lemma ScanIgnoresCase(keywords: seq<string>, keywords': seq<string>, text: string, text': string, start: nat,
                        n: nat, n': nat, r: nat, r': nat)
    requires |keywords| == |keywords'| && SameButCase(text, text')
    requires forall k | 0 <= k < |keywords| :: SameButCase(keywords[k], keywords'[k])
    requires Longest(keywords, text, start, n) && FirstKeyword(keywords, text, start, n, r)
    requires Longest(keywords', text', start, n') && FirstKeyword(keywords', text', start, n', r')
    ensures n == n' && r == r'
  {
    hide Matches, SameButCase;
    forall k: nat, m: nat | k < |keywords|
      ensures Matches(keywords[k], text, start, m) <==> Matches(keywords'[k], text', start, m)
    {
      MatchesEither(keywords[k], keywords'[k], text, text', start, m);
    }
    forall m: nat ensures MatchesSome(keywords, text, start, m) <==> MatchesSome(keywords', text', start, m) {
      MatchesSomeEither(keywords, keywords', text, text', start, m);
    }
    SameLengths(keywords, keywords');
    assert n == n';
    forall k: nat | k < |keywords|
      ensures IsKeyword(keywords, text, start, n, k) <==> IsKeyword(keywords', text', start, n, k)
    {
      assert Matches(keywords[k], text, start, n) <==> Matches(keywords'[k], text', start, n);
    }
  }

  lemma MatchesSomeEither(keywords: seq<string>, keywords': seq<string>, text: string, text': string, start: nat,
                          m: nat)
    requires |keywords| == |keywords'|
    requires forall k: nat | k < |keywords| ::
               Matches(keywords[k], text, start, m) <==> Matches(keywords'[k], text', start, m)
    ensures MatchesSome(keywords, text, start, m) <==> MatchesSome(keywords', text', start, m)
  {
    hide Matches;
    if k: nat :| k < |keywords| && Matches(keywords[k], text, start, m) {
      assert Matches(keywords'[k], text', start, m);
    }
    if k: nat :| k < |keywords'| && Matches(keywords'[k], text', start, m) {
      assert Matches(keywords[k], text, start, m);
    }
  }

  lemma SameLengths(keywords: seq<string>, keywords': seq<string>)
    requires |keywords| == |keywords'|
    requires forall k | 0 <= k < |keywords| :: SameButCase(keywords[k], keywords'[k])
    ensures forall k | 0 <= k < |keywords| :: |keywords[k]| == |keywords'[k]|
  {
  }

  datatype Status = DoesNotMatch | MightMatch | DoesMatch

  function Count(s: seq<Status>, x: Status): (n: nat)
    ensures n <= |s|
  {
    if s == [] then 0 else Count(s[..|s| - 1], x) + if s[|s| - 1] == x then 1 else 0
  }

  lemma {:induction false} CountUpdate(s: seq<Status>, i: nat, v: Status, x: Status)
    requires i < |s|
    ensures Count(s[i := v], x) == Count(s, x) - (if s[i] == x then 1 else 0) + (if v == x then 1 else 0)
  {
    var t := s[i := v];
    if i == |s| - 1 {
      assert t[..|t| - 1] == s[..|s| - 1];
    } else {
      assert t[..|t| - 1] == s[..|s| - 1][i := v];
      CountUpdate(s[..|s| - 1], i, v, x);
    }
  }

  lemma {:induction false} CountPositive(s: seq<Status>, x: Status)
    ensures Count(s, x) > 0 <==> exists i | 0 <= i < |s| :: s[i] == x
  {
    if s != [] {
      CountPositive(s[..|s| - 1], x);
      if i: nat :| i < |s| && s[i] == x {
        assert i == |s| - 1 || s[..|s| - 1][i] == x;
      }
    }
  }

  /** Two different entries that may still match count as two. */
  lemma TwoCount(s: seq<Status>, i: nat, j: nat)
    requires i < |s| && j < |s| && i != j && s[i] != DoesNotMatch && s[j] != DoesNotMatch
    ensures Count(s, MightMatch) + Count(s, DoesMatch) > 1
  {
    var t := s[i := DoesNotMatch];
    CountUpdate(s, i, DoesNotMatch, MightMatch);
    CountUpdate(s, i, DoesNotMatch, DoesMatch);
    assert t[j] == s[j];
    CountPositive(t, s[j]);
  }

  /** What the statuses mean after n characters were consumed. */
  predicate StatusOk(status: seq<Status>, keywords: seq<string>, text: string, start: nat, n: nat) {
    && |status| == |keywords|
    && forall k | 0 <= k < |keywords| ::
         && (status[k] == MightMatch <==> Matches(keywords[k], text, start, n) && |keywords[k]| > n)
         && (status[k] == DoesMatch <==> Matches(keywords[k], text, start, n) && |keywords[k]| == n)
  }

  /** The status of a keyword after it was tested against the next character. */
  function Tested(status: Status, keyword: string, n: nat, c: char): Status
    requires status == MightMatch ==> n < |keyword|
  {
    if status == MightMatch then
      if c != Upper(keyword[n]) then DoesNotMatch
      else if |keyword| == n + 1 then DoesMatch else MightMatch
    else status
  }

  /** The status after the keywords that matched on an earlier character are dropped. */
  function Cleaned(status: Status, keyword: string, n: nat): Status {
    if status == DoesMatch && |keyword| != n + 1 then DoesNotMatch else status
  }

  /** r is the first keyword that is the input read, or their number if none is. */
  ghost predicate FirstKeyword(keywords: seq<string>, text: string, start: nat, n: nat, r: nat) {
    && r <= |keywords|
    && (forall k | 0 <= k < r :: !IsKeyword(keywords, text, start, n, k))
    && (r < |keywords| ==> IsKeyword(keywords, text, start, n, r))
  }

  /** From a stream in good state, the scan consumes exactly the longest piece of input that begins some
      keyword, and finds the first keyword equal to it; the stream fails if there is none. From any other
      state it consumes nothing and can only find an empty keyword. */
  method ScanKeyword(input: Input, keywords: seq<string>) returns (r: nat)
    requires input.Valid()
    modifies input`pos, input`eof, input`fail
    ensures input.Valid() && input.pos >= old(input.pos)
    ensures FirstKeyword(keywords, input.text, old(input.pos), input.pos - old(input.pos), r)
    ensures old(input.Good()) ==> Longest(keywords, input.text, old(input.pos), input.pos - old(input.pos))
    ensures old(input.Good()) ==> (input.fail <==> r == |keywords|)
    ensures !old(input.Good()) ==> input.pos == old(input.pos) && (r == |keywords| ==> input.fail)
  {
    hide Count, Matches, Longest, DoesAreKeywords;
    ghost var start := input.pos;
    var status := new Status[|keywords|];
    var nMight, nDoes := InitStatus(status, keywords, input.text, start);
    TakeLongest(input, keywords, status, nMight, nDoes);
    r := FirstMatch(status);
    FirstMatchIsKeyword(status[..], keywords, input.text, start, input.pos - start, r);
    if r == |keywords| {
      input.fail := true;
    }
  }

  /** The loop over the input: consumes as long as some keyword goes on, and keeps the statuses exact. */
  method TakeLongest(input: Input, keywords: seq<string>, status: array<Status>, might: nat, does: nat)
    requires input.Valid() && status.Length == |keywords|
    requires StatusOk(status[..], keywords, input.text, input.pos, 0)
    requires might == Count(status[..], MightMatch) && does == Count(status[..], DoesMatch)
    modifies input`pos, input`eof, input`fail, status
    ensures input.Valid() && input.pos >= old(input.pos)
    ensures DoesAreKeywords(status[..], keywords, input.text, old(input.pos), input.pos - old(input.pos))
    ensures old(input.Good()) ==>
              !input.fail && Longest(keywords, input.text, old(input.pos), input.pos - old(input.pos))
    ensures !old(input.Good()) ==> input.pos == old(input.pos)
  {
    hide Count, Matches;
    ghost var start, good := input.pos, input.Good();
    var nMight, nDoes := might, does;
    var indx: nat := 0;
    ghost var n: nat, refused := 0, false;
    while !input.fail && nMight > 0
      invariant input.Valid() && input.pos == start + n
      invariant nMight == Count(status[..], MightMatch) && nDoes == Count(status[..], DoesMatch)
      invariant if good then input.Good() else n == 0 && !refused && (input.eof || input.fail)
      invariant n > 0 ==> MatchesSome(keywords, input.text, start, n)
      invariant !refused ==> indx == n && StatusOk(status[..], keywords, input.text, start, n)
      invariant refused ==> nMight == 0 && !MatchesSome(keywords, input.text, start, n + 1)
                            && DoesAreKeywords(status[..], keywords, input.text, start, n)
      decreases !refused, |input.text| - input.pos
    {
      CountPositive(status[..], MightMatch);
      var ic := input.Peek();
      if ic.None? {
        input.eof := true;
        break;
      }
      var c := Upper(ic.value);
      ghost var before := status[..];
      var consume;
      consume, nMight, nDoes := TestKeywords(status, keywords, indx, c, nMight, nDoes);
      ghost var tested := status[..];
      if consume {
        ConsumedSome(before, tested, keywords, input.text, start, n);
        input.Get();
        if nMight + nDoes > 1 {
          nDoes := DropEarlier(status, keywords, indx, nDoes);
        }
        Advance(before, tested, status[..], keywords, input.text, start, n);
        n := n + 1;
      } else {
        Refuse(before, tested, keywords, input.text, start, n);
        refused := true;
      }
      indx := indx + 1;
    }
    CountPositive(status[..], MightMatch);
    if !refused {
      ExactIsKeywords(status[..], keywords, input.text, start, n);
    }
    if good {
      StopsLongest(keywords, input.text, start, n, status[..], refused);
    }
  }

  lemma ExactIsKeywords(status: seq<Status>, keywords: seq<string>, text: string, start: nat, n: nat)
    requires StatusOk(status, keywords, text, start, n)
    ensures DoesAreKeywords(status, keywords, text, start, n)
  {
  }

  lemma FirstMatchIsKeyword(status: seq<Status>, keywords: seq<string>, text: string, start: nat, n: nat, r: nat)
    requires DoesAreKeywords(status, keywords, text, start, n)
    requires r <= |status| && (r < |status| ==> status[r] == DoesMatch)
    requires forall k | 0 <= k < r :: status[k] != DoesMatch
    ensures FirstKeyword(keywords, text, start, n, r)
  {
    hide Matches;
  }

  predicate DoesAreKeywords(status: seq<Status>, keywords: seq<string>, text: string, start: nat, n: nat) {
    && |status| == |keywords|
    && forall k | 0 <= k < |keywords| :: status[k] == DoesMatch <==> IsKeyword(keywords, text, start, n, k)
  }

  // ---------- One character ----------

  lemma MatchesMore(keyword: string, text: string, start: nat, n: nat)
    ensures Matches(keyword, text, start, n + 1)
            <==> Matches(keyword, text, start, n) && n < |keyword| && start + n < |text|
                 && Upper(text[start + n]) == Upper(keyword[n])
  {
  }

  ghost predicate AllTested(before: seq<Status>, tested: seq<Status>, keywords: seq<string>, text: string, start: nat,
                            n: nat) {
    && start + n < |text|
    && StatusOk(before, keywords, text, start, n) && |tested| == |keywords|
    && forall k | 0 <= k < |keywords| :: tested[k] == Tested(before[k], keywords[k], n, Upper(text[start + n]))
  }

  lemma ConsumedSome(before: seq<Status>, tested: seq<Status>, keywords: seq<string>, text: string, start: nat, n: nat)
    requires AllTested(before, tested, keywords, text, start, n)
    requires exists k | 0 <= k < |keywords| :: before[k] == MightMatch && tested[k] != DoesNotMatch
    ensures MatchesSome(keywords, text, start, n + 1)
  {
  }

  /** After a consumed character the statuses are exact again. The clean-up is skipped only when a single
      keyword is left, and then there is nothing to clean. */
  lemma Advance(before: seq<Status>, tested: seq<Status>, after: seq<Status>, keywords: seq<string>, text: string,
                start: nat, n: nat)
    requires AllTested(before, tested, keywords, text, start, n) && |after| == |keywords|
    requires exists k | 0 <= k < |keywords| :: before[k] == MightMatch && tested[k] != DoesNotMatch
    requires if Count(tested, MightMatch) + Count(tested, DoesMatch) > 1 then
               forall k | 0 <= k < |keywords| :: after[k] == Cleaned(tested[k], keywords[k], n)
             else after == tested
    ensures StatusOk(after, keywords, text, start, n + 1)
  {
    hide Matches, Count;
    var first :| 0 <= first < |keywords| && before[first] == MightMatch && tested[first] != DoesNotMatch;
    forall k | 0 <= k < |keywords|
      ensures after[k] == MightMatch <==> Matches(keywords[k], text, start, n + 1) && |keywords[k]| > n + 1
      ensures after[k] == DoesMatch <==> Matches(keywords[k], text, start, n + 1) && |keywords[k]| == n + 1
    {
      MatchesMore(keywords[k], text, start, n);
      if tested[k] == DoesMatch && |keywords[k]| != n + 1 {
        TwoCount(tested, k, first);
      }
    }
  }

  /** When no keyword goes on with the next character, none may match any more, and the matches stay. */
  lemma Refuse(before: seq<Status>, tested: seq<Status>, keywords: seq<string>, text: string, start: nat, n: nat)
    requires AllTested(before, tested, keywords, text, start, n)
    requires !exists k | 0 <= k < |keywords| :: before[k] == MightMatch && tested[k] != DoesNotMatch
    ensures Count(tested, MightMatch) == 0
    ensures !MatchesSome(keywords, text, start, n + 1)
    ensures DoesAreKeywords(tested, keywords, text, start, n)
  {
    hide Matches, Count;
    CountPositive(tested, MightMatch);
    forall k | 0 <= k < |keywords|
      ensures !Matches(keywords[k], text, start, n + 1)
    {
      MatchesMore(keywords[k], text, start, n);
    }
  }

  lemma StopsLongest(keywords: seq<string>, text: string, start: nat, n: nat, status: seq<Status>, refused: bool)
    requires n > 0 ==> MatchesSome(keywords, text, start, n)
    requires if refused then !MatchesSome(keywords, text, start, n + 1)
             else StatusOk(status, keywords, text, start, n)
                  && (start + n >= |text| || forall k | 0 <= k < |keywords| :: status[k] != MightMatch)
    ensures Longest(keywords, text, start, n)
  {
  }

  method InitStatus(status: array<Status>, keywords: seq<string>, ghost text: string, ghost start: nat)
    returns (nMight: nat, nDoes: nat)
    requires status.Length == |keywords| && start <= |text|
    modifies status
    ensures StatusOk(status[..], keywords, text, start, 0)
    ensures nMight == Count(status[..], MightMatch) && nDoes == Count(status[..], DoesMatch)
  {
    nMight, nDoes := |keywords|, 0;
    var ky := 0;
    while ky < |keywords|
      invariant 0 <= ky <= |keywords|
      invariant forall k | 0 <= k < ky :: status[k] == if keywords[k] != "" then MightMatch else DoesMatch
      invariant nMight == |keywords| - ky + Count(status[..ky], MightMatch)
      invariant nDoes == Count(status[..ky], DoesMatch)
    {
      if keywords[ky] != "" {
        status[ky] := MightMatch;
      } else {
        status[ky] := DoesMatch;
        nMight := nMight - 1;
        nDoes := nDoes + 1;
      }
      assert status[..ky + 1][..ky] == status[..ky];
      ky := ky + 1;
    }
    assert status[..] == status[..ky];
  }

  method TestKeywords(status: array<Status>, keywords: seq<string>, n: nat, c: char, might: nat, does: nat)
    returns (consume: bool, nMight: nat, nDoes: nat)
    requires status.Length == |keywords|
    requires forall k | 0 <= k < |keywords| && status[k] == MightMatch :: n < |keywords[k]|
    requires might == Count(status[..], MightMatch) && does == Count(status[..], DoesMatch)
    modifies status
    ensures forall k | 0 <= k < |keywords| :: status[k] == Tested(old(status[k]), keywords[k], n, c)
    ensures consume <==> exists k | 0 <= k < |keywords| :: old(status[k]) == MightMatch && status[k] != DoesNotMatch
    ensures nMight == Count(status[..], MightMatch) && nDoes == Count(status[..], DoesMatch)
  {
    consume, nMight, nDoes := false, might, does;
    ghost var before := status[..];
    var ky := 0;
    while ky < |keywords|
      invariant 0 <= ky <= |keywords|
      invariant forall k | 0 <= k < ky :: status[k] == Tested(before[k], keywords[k], n, c)
      invariant forall k | ky <= k < |keywords| :: status[k] == before[k]
      invariant consume <==> exists k | 0 <= k < ky :: before[k] == MightMatch && status[k] != DoesNotMatch
      invariant nMight == Count(status[..], MightMatch) && nDoes == Count(status[..], DoesMatch)
    {
      if status[ky] == MightMatch {
        ghost var s := status[..];
        CountPositive(s, MightMatch);
        if c == Upper(keywords[ky][n]) {
          consume := true;
          if |keywords[ky]| == n + 1 {
            status[ky] := DoesMatch;
            nMight := nMight - 1;
            nDoes := nDoes + 1;
          }
        } else {
          status[ky] := DoesNotMatch;
          nMight := nMight - 1;
        }
        assert status[..] == s[ky := status[ky]];
        CountUpdate(s, ky, status[ky], MightMatch);
        CountUpdate(s, ky, status[ky], DoesMatch);
      }
      ky := ky + 1;
    }
  }

  /** The first matching entry, or their number if there is none. */
  method FirstMatch(status: array<Status>) returns (r: nat)
    ensures r <= status.Length && (r < status.Length ==> status[r] == DoesMatch)
    ensures forall k | 0 <= k < r :: status[k] != DoesMatch
  {
    r := 0;
    while r < status.Length
      invariant r <= status.Length
      invariant forall k | 0 <= k < r :: status[k] != DoesMatch
    {
      if status[r] == DoesMatch {
        break;
      }
      r := r + 1;
    }
  }

  method DropEarlier(status: array<Status>, keywords: seq<string>, n: nat, does: nat)
    returns (nDoes: nat)
    requires status.Length == |keywords|
    requires does == Count(status[..], DoesMatch)
    modifies status
    ensures forall k | 0 <= k < |keywords| :: status[k] == Cleaned(old(status[k]), keywords[k], n)
    ensures Count(status[..], MightMatch) == old(Count(status[..], MightMatch)) && nDoes == Count(status[..], DoesMatch)
  {
    nDoes := does;
    ghost var before := status[..];
    var ky := 0;
    while ky < |keywords|
      invariant 0 <= ky <= |keywords|
      invariant forall k | 0 <= k < ky :: status[k] == Cleaned(before[k], keywords[k], n)
      invariant forall k | ky <= k < |keywords| :: status[k] == before[k]
      invariant Count(status[..], MightMatch) == Count(before, MightMatch) && nDoes == Count(status[..], DoesMatch)
    {
      if status[ky] == DoesMatch && |keywords[ky]| != n + 1 {
        ghost var s := status[..];
        CountPositive(s, DoesMatch);
        status[ky] := DoesNotMatch;
        nDoes := nDoes - 1;
        assert status[..] == s[ky := DoesNotMatch];
        CountUpdate(s, ky, DoesNotMatch, MightMatch);
        CountUpdate(s, ky, DoesNotMatch, DoesMatch);
      }
      ky := ky + 1;
    }
  }
}
