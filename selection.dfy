/** Turning the player's free-form reply into the hand slots to replace:
    commas count as spaces, the text is split on whitespace, every token
    that is all digits with a value in 1..5 names slot value - 1, and the
    distinct slots come back in ascending order. */
module Selection {
  import opened SeqFacts

  /** The highest position the player may name (positions are 1-based). */
  const MaxPosition := 5

  /** The ASCII characters that whitespace splitting treats as separators. */
  predicate IsSpace(c: char)
  {
    c == ' ' || c == '\t' || c == '\n' || c == '\r' ||
    c == '\U{000B}' || c == '\U{000C}' || '\U{001C}' <= c <= '\U{001F}'
  }

  predicate IsDigit(c: char)
  {
    '0' <= c <= '9'
  }

  /** A non-empty token made of decimal digits only. */
  predicate IsDigits(t: string)
  {
    |t| > 0 && forall k :: 0 <= k < |t| ==> IsDigit(t[k])
  }

  /** The value of a string of decimal digits; leading zeros are allowed. */
  function DecimalValue(t: string): nat
    requires forall k :: 0 <= k < |t| ==> IsDigit(t[k])
  {
    if t == [] then 0
    else
      assert IsDigit(t[|t| - 1]);
      DecimalValue(t[..|t| - 1]) * 10 + (t[|t| - 1] as int - '0' as int)
  }

  /** The text with every comma replaced by a space. */
  function CommasToSpaces(s: string): string
  {
    seq(|s|, k requires 0 <= k < |s| => if s[k] == ',' then ' ' else s[k])
  }

  // ---------- whitespace splitting ----------

  /** The maximal runs of non-whitespace characters of `s`, in order. */
  function Split(s: string): seq<string>
  {
    SplitFrom(s, "")
  }

  /** Splitting the rest `s` of the text when `word` is the part of the
      current token already read. */
  function SplitFrom(s: string, word: string): seq<string>
    decreases |s|
  {
    if s == [] then
      (if word == [] then [] else [word])
    else if IsSpace(s[0]) then
      (if word == [] then [] else [word]) + SplitFrom(s[1..], "")
    else
      SplitFrom(s[1..], word + [s[0]])
  }

  predicate NoSpace(t: string)
  {
    forall k :: 0 <= k < |t| ==> !IsSpace(t[k])
  }

  /** A token is non-empty and holds no whitespace. */
  predicate IsWord(t: string)
  {
    t != [] && NoSpace(t)
  }

  /** Every token produced by splitting is a word. */
  lemma {:induction false} SplitFromWords(s: string, word: string)
    requires NoSpace(word)
    ensures forall t :: t in SplitFrom(s, word) ==> IsWord(t)
  {
    if s == [] {
    } else if IsSpace(s[0]) {
      SplitFromWords(s[1..], "");
    } else {
      SplitFromWords(s[1..], word + [s[0]]);
    }
  }

  lemma SplitWords(s: string)
    ensures forall t :: t in Split(s) ==> IsWord(t)
  {
    SplitFromWords(s, "");
  }

  /** Reading a run of non-whitespace characters only extends the current
      token. */
  lemma {:induction false} SplitFromRun(w: string, s: string, word: string)
    requires NoSpace(w)
    ensures SplitFrom(w + s, word) == SplitFrom(s, word + w)
  {
    if w != [] {
      assert (w + s)[0] == w[0] && (w + s)[1..] == w[1..] + s;
      assert w == [w[0]] + w[1..];
      assert word + [w[0]] + w[1..] == word + w;
      assert !IsSpace(w[0]);
      assert SplitFrom(w + s, word) == SplitFrom(w[1..] + s, word + [w[0]]);
      assert NoSpace(w[1..]) by {
        forall k | 0 <= k < |w[1..]| ensures !IsSpace(w[1..][k]) {
          assert w[1..][k] == w[k + 1];
        }
      }
      SplitFromRun(w[1..], s, word + [w[0]]);
    } else {
      assert w + s == s && word + w == word;
    }
  }

  /** Text made only of whitespace holds no token. */
  lemma {:induction false} SplitBlank(s: string)
    requires forall k :: 0 <= k < |s| ==> IsSpace(s[k])
    ensures Split(s) == []
  {
    if s != [] {
      SplitBlank(s[1..]);
    }
  }

  /** Splitting undoes joining words with single spaces. */
  lemma {:induction false} SplitJoinSpaced(words: seq<string>)
    requires forall k :: 0 <= k < |words| ==> IsWord(words[k])
    ensures Split(Join(" ", words)) == words
  {
    if |words| == 1 {
      SplitFromRun(words[0], "", "");
      assert words[0] + "" == words[0];
    } else if |words| > 1 {
      var rest := Join(" ", words[1..]);
      assert words[0] + " " + rest == words[0] + (" " + rest);
      SplitFromRun(words[0], " " + rest, "");
      assert (" " + rest)[1..] == rest;
      SplitJoinSpaced(words[1..]);
      assert "" + words[0] == words[0];
      assert words == [words[0]] + words[1..];
    }
  }

  // ---------- selection ----------

  /** The tokens the player typed. */
  function Tokens(inp: string): seq<string>
  {
    Split(CommasToSpaces(inp))
  }

  /** Token `t` names hand slot `i`: it is all digits and its value, in
      1..MaxPosition, is i + 1. */
  predicate Picks(t: string, i: int)
  {
    IsDigits(t) && 1 <= DecimalValue(t) <= MaxPosition && i == DecimalValue(t) - 1
  }

  /** Some token among `ts` names slot `i`. */
  predicate PickedAmong(ts: seq<string>, i: int)
  {
    exists t :: t in ts && Picks(t, i)
  }

  lemma PickedAmongSnoc(ts: seq<string>, t: string)
    ensures forall i :: PickedAmong(ts + [t], i) <==> PickedAmong(ts, i) || Picks(t, i)
  {
  }

  /** Some token of the input names slot `i`. */
  predicate Selected(inp: string, i: int)
  {
    PickedAmong(Tokens(inp), i)
  }

  predicate Ascending(s: seq<int>)
  {
    forall i, j :: 0 <= i < j < |s| ==> s[i] <= s[j]
  }

  predicate StrictlyAscending(s: seq<int>)
  {
    forall i, j :: 0 <= i < j < |s| ==> s[i] < s[j]
  }

  lemma AscendingCons(a: int, t: seq<int>)
    requires Ascending(t)
    requires t != [] ==> a <= t[0]
    ensures Ascending([a] + t)
  {
  }

  /** `x` inserted into an ascending sequence at its place. */
  function Insert(x: int, s: seq<int>): (r: seq<int>)
    requires Ascending(s)
    ensures Ascending(r)
    ensures multiset(r) == multiset(s) + multiset{x}
    ensures r[0] == if s != [] && s[0] < x then s[0] else x
  {
    if s == [] || x <= s[0] then
      AscendingCons(x, s);
      [x] + s
    else
      var rest := s[1..];
      assert s == [s[0]] + rest;
      var tail := Insert(x, rest);
      AscendingCons(s[0], tail);
      [s[0]] + tail
  }

  /** The elements of `s` in ascending order. */
  function Sort(s: seq<int>): (r: seq<int>)
    ensures Ascending(r)
    ensures multiset(r) == multiset(s)
  {
    if s == [] then []
    else
      assert s == s[..|s| - 1] + [s[|s| - 1]];
      Insert(s[|s| - 1], Sort(s[..|s| - 1]))
  }

  /** Ascending and without duplicates is strictly ascending. */
  lemma AscendingDistinct(s: seq<int>)
    requires Ascending(s) && NoDuplicates(s)
    ensures StrictlyAscending(s)
  {
  }

  /** Sorting a sequence without duplicates makes it strictly ascending and
      keeps its members. */
  lemma SortDistinct(s: seq<int>)
    requires NoDuplicates(s)
    ensures StrictlyAscending(Sort(s))
    ensures forall x :: x in Sort(s) <==> x in s
  {
    var r := Sort(s);
    forall x ensures x in r <==> x in s {
      assert x in r <==> x in multiset(r);
      assert x in s <==> x in multiset(s);
    }
    PermutationKeepsNoDuplicates(s, r);
    AscendingDistinct(r);
  }

  /** A strictly ascending sequence is determined by its members. */
  lemma {:induction false} StrictlyAscendingUnique(a: seq<int>, b: seq<int>)
    requires StrictlyAscending(a) && StrictlyAscending(b)
    requires forall x :: x in a <==> x in b
    ensures a == b
  {
    if a != [] {
      assert a[0] in a;
    }
    if b != [] {
      assert b[0] in b;
    }
    if a != [] && b != [] {
      assert a[0] in b && b[0] in a;
      assert a[0] == b[0];
      forall x ensures x in a[1..] <==> x in b[1..] {
        assert x in a[1..] <==> x in a && x != a[0];
        assert x in b[1..] <==> x in b && x != b[0];
      }
      StrictlyAscendingUnique(a[1..], b[1..]);
      assert a == [a[0]] + a[1..] && b == [b[0]] + b[1..];
    }
  }

  /** A strictly ascending sequence of values in lo..hi-1 has at most
      hi - lo elements. */
  lemma {:induction false} StrictlyAscendingBounded(s: seq<int>, lo: int, hi: int)
    requires StrictlyAscending(s)
    requires forall k :: 0 <= k < |s| ==> lo <= s[k] < hi
    ensures |s| <= if hi - lo < 0 then 0 else hi - lo
  {
    if s != [] {
      StrictlyAscendingBounded(s[1..], s[0] + 1, hi);
    }
  }

  /** Parses the player's reply: the slots named by its tokens, each once,
      in ascending order. */
  method ParseSelection(inp: string) returns (indices: seq<int>)
    ensures forall i :: i in indices <==> Selected(inp, i)
    ensures forall i :: i in indices ==> 0 <= i < MaxPosition
    ensures StrictlyAscending(indices)
    ensures |indices| <= MaxPosition
  {
    var parts := Tokens(inp);
    var found: seq<int> := [];
    for p := 0 to |parts|
      invariant forall i :: i in found <==> PickedAmong(parts[..p], i)
      invariant NoDuplicates(found)
    {
      var t := parts[p];
      assert parts[..p + 1] == parts[..p] + [t];
      PickedAmongSnoc(parts[..p], t);
      if IsDigits(t) {
        var k := DecimalValue(t);
        if 1 <= k <= MaxPosition {
          var idx := k - 1;
          if idx !in found {
            found := found + [idx];
          }
        }
      }
    }
    assert parts[..|parts|] == parts;
    indices := Sort(found);
    SortDistinct(found);
    assert forall k :: 0 <= k < |indices| ==> 0 <= indices[k] < MaxPosition by {
      forall k | 0 <= k < |indices| ensures 0 <= indices[k] < MaxPosition {
        assert indices[k] in indices;
      }
    }
    StrictlyAscendingBounded(indices, 0, MaxPosition);
  }

  // ---------- worked examples ----------
  // Each example lemma pins down the only result `ParseSelection` may
  // return for one input: its postconditions fix the members and the order.

  lemma TokensCommaList()
    ensures Tokens("1, 3,5") == ["1", "3", "5"]
  {
    var rest := Join(" ", ["3", "5"]);
    assert CommasToSpaces("1, 3,5") == "1" + ("  " + rest);
    SplitFromRun("1", "  " + rest, "");
    assert ("  " + rest)[1..] == " " + rest && (" " + rest)[1..] == rest;
    assert "" + "1" == "1";
    calc {
      Tokens("1, 3,5");
      SplitFrom("1" + ("  " + rest), "");
      SplitFrom("  " + rest, "1");
      ["1"] + SplitFrom(" " + rest, "");
      ["1"] + SplitFrom(rest, "");
      { SplitJoinSpaced(["3", "5"]); }
      ["1", "3", "5"];
    }
  }

  lemma TokensMixed()
    ensures Tokens("0,6,abc,3") == ["0", "6", "abc", "3"]
  {
    assert CommasToSpaces("0,6,abc,3") == Join(" ", ["0", "6", "abc", "3"]);
    SplitJoinSpaced(["0", "6", "abc", "3"]);
  }

  lemma TokensRepeated()
    ensures Tokens("3,3,1") == ["3", "3", "1"]
  {
    assert CommasToSpaces("3,3,1") == Join(" ", ["3", "3", "1"]);
    SplitJoinSpaced(["3", "3", "1"]);
  }

  /** A one-digit token names the slot one below its digit, if that digit
      is a position. */
  lemma PicksDigit(t: string, i: int)
    requires |t| == 1 && IsDigit(t[0])
    ensures Picks(t, i) <==> 1 <= t[0] as int - '0' as int <= MaxPosition && i == t[0] as int - '0' as int - 1
  {
    assert t[..0] == [];
    assert DecimalValue(t) == DecimalValue(t[..0]) * 10 + (t[0] as int - '0' as int);
  }

  /** "1, 3,5" selects slots 0, 2 and 4. */
  lemma ExampleCommaList(indices: seq<int>)
    requires StrictlyAscending(indices)
    requires forall i :: i in indices <==> Selected("1, 3,5", i)
    ensures indices == [0, 2, 4]
  {
    var ts := ["1", "3", "5"];
    TokensCommaList();
    forall i ensures Selected("1, 3,5", i) <==> i in [0, 2, 4] {
      PicksDigit("1", i);
      PicksDigit("3", i);
      PicksDigit("5", i);
      assert ts[0] == "1" && ts[1] == "3" && ts[2] == "5";
    }
    StrictlyAscendingUnique(indices, [0, 2, 4]);
  }

  /** "0,6,abc,3" selects slot 2 only: 0 and 6 are out of range and "abc" is
      not a number. */
  lemma ExampleMixedTokens(indices: seq<int>)
    requires StrictlyAscending(indices)
    requires forall i :: i in indices <==> Selected("0,6,abc,3", i)
    ensures indices == [2]
  {
    var ts := ["0", "6", "abc", "3"];
    TokensMixed();
    assert !IsDigit(ts[2][0]);
    forall i ensures Selected("0,6,abc,3", i) <==> i in [2] {
      PicksDigit("0", i);
      PicksDigit("6", i);
      PicksDigit("3", i);
      assert ts[0] == "0" && ts[1] == "6" && ts[3] == "3";
    }
    StrictlyAscendingUnique(indices, [2]);
  }

  /** "3,3,1" selects slots 0 and 2: the repeated 3 counts once and the
      result is ascending. */
  lemma ExampleRepeated(indices: seq<int>)
    requires StrictlyAscending(indices)
    requires forall i :: i in indices <==> Selected("3,3,1", i)
    ensures indices == [0, 2]
  {
    var ts := ["3", "3", "1"];
    TokensRepeated();
    forall i ensures Selected("3,3,1", i) <==> i in [0, 2] {
      PicksDigit("3", i);
      PicksDigit("1", i);
      assert ts[0] == "3" && ts[1] == "3" && ts[2] == "1";
    }
    StrictlyAscendingUnique(indices, [0, 2]);
  }

  /** Text made of whitespace and commas only selects nothing. */
  lemma BlankSelectsNothing(inp: string, indices: seq<int>)
    requires forall k :: 0 <= k < |inp| ==> inp[k] == ',' || IsSpace(inp[k])
    requires forall i :: i in indices <==> Selected(inp, i)
    ensures indices == []
  {
    assert indices != [] ==> indices[0] in indices;
    SplitBlank(CommasToSpaces(inp));
    assert Tokens(inp) == [];
    forall i ensures i !in indices {
      assert !Selected(inp, i);
    }
  }
}
