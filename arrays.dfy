/**
 * Nine independent transformations of lists of numbers and strings. Numbers
 * are unbounded integers; strings are sequences of characters.
 */
module Arrays {
  import opened Wrappers
  import opened Numerals
  import opened Text

  // ---------------------------------------------------------------------
  // bookEndList

  /** The first and last number; nothing for an empty list. */
  function BookEndList(numbers: seq<int>): (r: seq<int>)
    ensures numbers == [] ==> r == []
    ensures numbers != [] ==> |r| == 2 && r[0] == numbers[0] && r[1] == numbers[|numbers| - 1]
  {
    if |numbers| == 0 then [] else [numbers[0], numbers[|numbers| - 1]]
  }

  /** A one-element list gives its element twice. */
  lemma BookEndSingleton(x: int)
    ensures BookEndList([x]) == [x, x]
  {
  }

  /** The book ends of a list are its own book ends. */
  lemma BookEndIdempotent(numbers: seq<int>)
    ensures BookEndList(BookEndList(numbers)) == BookEndList(numbers)
  {
  }

  /** Only the two ends matter: whatever lies between them is dropped. */
  lemma BookEndIgnoresMiddle(first: int, middle: seq<int>, last: int)
    ensures BookEndList([first] + middle + [last]) == [first, last]
  {
  }

  // ---------------------------------------------------------------------
  // tripleNumbers

  /** Every number multiplied by 3, in order. */
  function TripleNumbers(numbers: seq<int>): (r: seq<int>)
    ensures |r| == |numbers|
    ensures forall i :: 0 <= i < |numbers| ==> r[i] == 3 * numbers[i]
  {
    if numbers == [] then [] else [3 * numbers[0]] + TripleNumbers(numbers[1..])
  }

  /** Tripling twice multiplies every number by 9. */
  lemma TripleTwice(numbers: seq<int>)
    ensures |TripleNumbers(TripleNumbers(numbers))| == |numbers|
    ensures forall i :: 0 <= i < |numbers| ==> TripleNumbers(TripleNumbers(numbers))[i] == 9 * numbers[i]
  {
  }

  /** Tripling works element by element, so it distributes over concatenation. */
  lemma {:induction false} TripleConcat(a: seq<int>, b: seq<int>)
    ensures TripleNumbers(a + b) == TripleNumbers(a) + TripleNumbers(b)
  {
    if a == [] {
      assert a + b == b;
    } else {
      assert (a + b)[0] == a[0];
      assert (a + b)[1..] == a[1..] + b;
      TripleConcat(a[1..], b);
    }
  }

  // ---------------------------------------------------------------------
  // stringsToIntegers

  /** Each string as the integer it denotes, or 0 when it is not a numeral. */
  function StringsToIntegers(strings: seq<string>): (r: seq<int>)
    ensures |r| == |strings|
    ensures forall i :: 0 <= i < |strings| && ParseInt(strings[i]).None? ==> r[i] == 0
    ensures forall i :: 0 <= i < |strings| && ParseInt(strings[i]).Some? ==> r[i] == ParseInt(strings[i]).value
  {
    if strings == [] then [] else [NumberOrZero(strings[0])] + StringsToIntegers(strings[1..])
  }

  /** Each number rendered in decimal (the text that `join` puts between separators). */
  function RenderAll(numbers: seq<int>): (r: seq<string>)
    ensures |r| == |numbers|
    ensures forall i :: 0 <= i < |numbers| ==> r[i] == IntToString(numbers[i])
  {
    if numbers == [] then [] else [IntToString(numbers[0])] + RenderAll(numbers[1..])
  }

  /** Converting the decimal renderings of numbers gives the numbers back. */
  lemma StringsToIntegersOfRendering(numbers: seq<int>)
    ensures StringsToIntegers(RenderAll(numbers)) == numbers
  {
    forall i | 0 <= i < |numbers|
      ensures StringsToIntegers(RenderAll(numbers))[i] == numbers[i]
    {
      ParseIntToString(numbers[i]);
    }
  }

  // ---------------------------------------------------------------------
  // removeDollars

  /** One amount: a single leading '$' is dropped before the conversion. */
  function DollarAmount(amount: string): (n: int)
    ensures ParseInt(amount).Some? ==> n == ParseInt(amount).value
    ensures n != 0 ==> ParseInt(amount) == Some(n) || (|amount| > 0 && amount[0] == '$' && ParseInt(amount[1..]) == Some(n))
  {
    if |amount| > 0 && amount[0] == '$' then NumberOrZero(amount[1..]) else NumberOrZero(amount)
  }

  /** Each amount as a number, one leading '$' removed, 0 when not a numeral. */
  function RemoveDollars(amounts: seq<string>): (r: seq<int>)
    ensures |r| == |amounts|
    ensures forall i :: 0 <= i < |amounts| && |amounts[i]| > 0 && amounts[i][0] == '$' ==>
      r[i] == ParseInt(amounts[i][1..]).GetOr(0)
    ensures forall i :: 0 <= i < |amounts| && !(|amounts[i]| > 0 && amounts[i][0] == '$') ==>
      r[i] == ParseInt(amounts[i]).GetOr(0)
  {
    if amounts == [] then [] else [DollarAmount(amounts[0])] + RemoveDollars(amounts[1..])
  }

  /** Without any '$' prefix, removing dollars is converting strings to integers. */
  lemma RemoveDollarsWithoutDollars(amounts: seq<string>)
    requires forall i :: 0 <= i < |amounts| ==> !(|amounts[i]| > 0 && amounts[i][0] == '$')
    ensures RemoveDollars(amounts) == StringsToIntegers(amounts)
  {
  }

  /** A '$' prefix makes no difference to the number obtained. */
  lemma RemoveDollarsPrefix(amount: string)
    ensures RemoveDollars(["$" + amount]) == StringsToIntegers([amount])
  {
    assert ("$" + amount)[1..] == amount;
  }

  /** A dollar amount written as '$' and a rendered integer reads as that integer. */
  lemma RemoveDollarsOfRendering(n: int)
    ensures RemoveDollars(["$" + IntToString(n)]) == [n]
  {
    RemoveDollarsPrefix(IntToString(n));
    ParseIntToString(n);
  }

  /** A lone '$', a '$' before text and a doubled '$' all give 0: only one '$' is stripped. */
  lemma RemoveDollarsFailures()
    ensures RemoveDollars(["$", "$abc", "$$5"]) == [0, 0, 0]
  {
    assert "$"[1..] == "";
    assert "$abc"[1..] == "abc";
    ParseIntRejects("abc", 0);
    assert "$$5"[1..] == "$5";
    ParseIntRejects("$5", 0);
  }

  // ---------------------------------------------------------------------
  // shoutIfExclaiming

  /** One message: upper-cased when it ends in '!', else unchanged. */
  function Shout(message: string): (r: string)
    ensures EndsWith(r, '?') <==> EndsWith(message, '?')
    ensures EndsWith(r, '!') <==> EndsWith(message, '!')
  {
    UpperCaseEndsWith(message, '?');
    UpperCaseEndsWith(message, '!');
    if EndsWith(message, '!') then UpperCase(message) else message
  }

  /**
   * The messages with every one ending in '!' upper-cased, and then every one
   * ending in '?' removed (the map and the filter fused into one pass).
   */
  function ShoutIfExclaiming(messages: seq<string>): (r: seq<string>)
    ensures |r| <= |messages|
    ensures forall j :: 0 <= j < |r| ==> !EndsWith(r[j], '?')
  {
    if messages == [] then []
    else
      var m := Shout(messages[0]);
      (if EndsWith(m, '?') then [] else [m]) + ShoutIfExclaiming(messages[1..])
  }

  /** Every message ending in '!' survives, upper-cased. */
  lemma {:induction false} ShoutKeepsExclaimed(messages: seq<string>, i: nat)
    requires i < |messages| && EndsWith(messages[i], '!')
    ensures UpperCase(messages[i]) in ShoutIfExclaiming(messages)
  {
    var m := Shout(messages[0]);
    var pre := if EndsWith(m, '?') then [] else [m];
    assert ShoutIfExclaiming(messages) == pre + ShoutIfExclaiming(messages[1..]);
    if i > 0 {
      assert messages[1..][i - 1] == messages[i];
      ShoutKeepsExclaimed(messages[1..], i - 1);
    } else {
      assert pre == [UpperCase(messages[0])];
    }
  }

  /** Every message ending in neither '!' nor '?' (the empty one included) survives unchanged. */
  lemma {:induction false} ShoutKeepsQuiet(messages: seq<string>, i: nat)
    requires i < |messages| && !EndsWith(messages[i], '!') && !EndsWith(messages[i], '?')
    ensures messages[i] in ShoutIfExclaiming(messages)
  {
    var m := Shout(messages[0]);
    var pre := if EndsWith(m, '?') then [] else [m];
    assert ShoutIfExclaiming(messages) == pre + ShoutIfExclaiming(messages[1..]);
    if i > 0 {
      assert messages[1..][i - 1] == messages[i];
      ShoutKeepsQuiet(messages[1..], i - 1);
    } else {
      assert pre == [messages[0]];
    }
  }

  /**
   * Nothing else survives: each result is the shouted form of an input
   * message that does not end in '?', and order is kept (see ShoutConcat).
   */
  lemma {:induction false} ShoutOnlyFromInput(messages: seq<string>, j: nat)
    requires j < |ShoutIfExclaiming(messages)|
    ensures exists i :: 0 <= i < |messages| && !EndsWith(messages[i], '?') && ShoutIfExclaiming(messages)[j] == Shout(messages[i])
  {
    var m := Shout(messages[0]);
    var pre := if EndsWith(m, '?') then [] else [m];
    var tail := messages[1..];
    var rest := ShoutIfExclaiming(tail);
    var r := ShoutIfExclaiming(messages);
    assert r == pre + rest;
    if j < |pre| {
      assert r[j] == Shout(messages[0]);
    } else {
      assert r[j] == rest[j - |pre|];
      ShoutOnlyFromInput(tail, j - |pre|);
      var t :| 0 <= t < |tail| && !EndsWith(tail[t], '?') && rest[j - |pre|] == Shout(tail[t]);
      assert messages[t + 1] == tail[t];
    }
  }

  /** Shouting works message by message: it distributes over concatenation, so order is kept. */
  lemma {:induction false} ShoutConcat(a: seq<string>, b: seq<string>)
    ensures ShoutIfExclaiming(a + b) == ShoutIfExclaiming(a) + ShoutIfExclaiming(b)
  {
    if a == [] {
      assert a + b == b;
    } else {
      var m := Shout(a[0]);
      var pre := if EndsWith(m, '?') then [] else [m];
      assert (a + b)[0] == a[0];
      assert (a + b)[1..] == a[1..] + b;
      assert ShoutIfExclaiming(a + b) == pre + ShoutIfExclaiming(a[1..] + b);
      assert ShoutIfExclaiming(a) == pre + ShoutIfExclaiming(a[1..]);
      ShoutConcat(a[1..], b);
    }
  }

  /** Shouting a second time changes nothing. */
  lemma {:induction false} ShoutIdempotent(messages: seq<string>)
    ensures ShoutIfExclaiming(ShoutIfExclaiming(messages)) == ShoutIfExclaiming(messages)
  {
    if messages != [] {
      var m := Shout(messages[0]);
      var rest := ShoutIfExclaiming(messages[1..]);
      ShoutIdempotent(messages[1..]);
      if !EndsWith(m, '?') {
        if EndsWith(messages[0], '!') {
          UpperCaseIdempotent(messages[0]);
        }
        assert Shout(m) == m;
        assert ShoutIfExclaiming(messages) == [m] + rest;
        ShoutConcat([m], rest);
        assert [m][1..] == [];
        assert ShoutIfExclaiming([m]) == [m];
      } else {
        assert ShoutIfExclaiming(messages) == rest;
      }
    }
  }

  /** Messages that end in neither '!' nor '?' (the empty one included) come back unchanged. */
  lemma {:induction false} ShoutQuiet(messages: seq<string>)
    requires forall i :: 0 <= i < |messages| ==> !EndsWith(messages[i], '!') && !EndsWith(messages[i], '?')
    ensures ShoutIfExclaiming(messages) == messages
  {
    if messages != [] {
      ShoutQuiet(messages[1..]);
    }
  }

  // ---------------------------------------------------------------------
  // countShortWords

  /** A word is short when its `length`, in UTF-16 code units, is below 4. */
  predicate IsShort(word: string) {
    Utf16Length(word) < 4
  }

  /** The number of short words, counted from the left as the fold does. */
  function ShortWordCount(words: seq<string>): (n: nat)
    ensures n <= |words|
  {
    if words == [] then 0
    else ShortWordCount(words[..|words| - 1]) + (if IsShort(words[|words| - 1]) then 1 else 0)
  }

  /** The positions of the short words. */
  function ShortPositions(words: seq<string>): (r: set<nat>)
    ensures forall i :: i in r ==> i < |words|
    ensures forall i :: 0 <= i < |words| ==> (i in r <==> IsShort(words[i]))
  {
    set i: nat | i < |words| && IsShort(words[i])
  }

  /** The count is the number of positions that hold a short word. */
  lemma {:induction false} ShortWordCountIsSize(words: seq<string>)
    ensures ShortWordCount(words) == |ShortPositions(words)|
  {
    if words != [] {
      var n := |words| - 1;
      var p := words[..n];
      ShortWordCountIsSize(p);
      if IsShort(words[n]) {
        assert ShortPositions(words) == ShortPositions(p) + {n};
      } else {
        assert ShortPositions(words) == ShortPositions(p);
      }
    }
  }

  /** Counting a concatenation adds the counts. */
  lemma {:induction false} ShortWordCountConcat(a: seq<string>, b: seq<string>)
    ensures ShortWordCount(a + b) == ShortWordCount(a) + ShortWordCount(b)
  {
    if b == [] {
      assert a + b == a;
    } else {
      var n := |b| - 1;
      assert (a + b)[..|a + b| - 1] == a + b[..n];
      ShortWordCountConcat(a, b[..n]);
    }
  }

  /** Every word is short exactly when the count is the length of the list. */
  lemma {:induction false} ShortWordCountAll(words: seq<string>)
    ensures ShortWordCount(words) == |words| <==> forall i :: 0 <= i < |words| ==> IsShort(words[i])
  {
    if words != [] {
      var n := |words| - 1;
      var p := words[..n];
      ShortWordCountAll(p);
      assert forall i :: 0 <= i < n ==> p[i] == words[i];
    }
  }

  /** No word is short exactly when the count is 0. */
  lemma {:induction false} ShortWordCountNone(words: seq<string>)
    ensures ShortWordCount(words) == 0 <==> forall i :: 0 <= i < |words| ==> !IsShort(words[i])
  {
    if words != [] {
      var n := |words| - 1;
      var p := words[..n];
      ShortWordCountNone(p);
      assert forall i :: 0 <= i < n ==> p[i] == words[i];
    }
  }

  /**
   * Length counts UTF-16 code units: two astral characters make a word of
   * length 4, which is not short, while three ASCII letters are.
   */
  lemma ShortWordCountAstral()
    ensures ShortWordCount(["\U{1F600}\U{1F600}"]) == 0
    ensures ShortWordCount(["abc"]) == 1
  {
    assert "\U{1F600}\U{1F600}"[1..] == "\U{1F600}";
    assert "abc"[1..] == "bc" && "bc"[1..] == "c";
  }

  /** The counting fold: one pass, one counter bumped for each short word. */
  method CountShortWords(words: seq<string>) returns (total: nat)
    ensures total == ShortWordCount(words)
    ensures total == |ShortPositions(words)|
  {
    total := 0;
    var i := 0;
    while i < |words|
      invariant 0 <= i <= |words|
      invariant total == ShortWordCount(words[..i])
    {
      assert words[..i + 1][..i] == words[..i];
      if Utf16Length(words[i]) < 4 {
        total := total + 1;
      }
      i := i + 1;
    }
    assert words[..i] == words;
    ShortWordCountIsSize(words);
  }

  // ---------------------------------------------------------------------
  // allRGB

  const RGB: seq<string> := ["red", "green", "blue"]

  /** Whether some colour is not one of the three (the `some` scan). */
  function SomeNotRGB(colors: seq<string>): (b: bool)
    ensures b <==> exists i :: 0 <= i < |colors| && colors[i] !in RGB
  {
    if colors == [] then false
    else
      assert forall i :: 1 <= i < |colors| ==> colors[i] == colors[1..][i - 1];
      colors[0] !in RGB || SomeNotRGB(colors[1..])
  }

  /** True for an empty list; otherwise true exactly when every colour is red, green or blue. */
  function AllRGB(colors: seq<string>): (b: bool)
    ensures colors == [] ==> b
    ensures b <==> forall i :: 0 <= i < |colors| ==> colors[i] == "red" || colors[i] == "green" || colors[i] == "blue"
  {
    if |colors| == 0 then true else !SomeNotRGB(colors)
  }

  /** Adding one colour keeps the answer only when that colour is red, green or blue. */
  lemma AllRGBAppend(colors: seq<string>, c: string)
    ensures AllRGB(colors + [c]) <==> AllRGB(colors) && c in RGB
  {
    assert (colors + [c])[|colors|] == c;
    assert forall i :: 0 <= i < |colors| ==> (colors + [c])[i] == colors[i];
  }

  /** The answer for a concatenation is the conjunction of the answers for its parts. */
  lemma AllRGBConcat(a: seq<string>, b: seq<string>)
    ensures AllRGB(a + b) <==> AllRGB(a) && AllRGB(b)
  {
    assert forall i :: 0 <= i < |a| ==> (a + b)[i] == a[i];
    assert forall i :: 0 <= i < |b| ==> (a + b)[|a| + i] == b[i];
  }

  // ---------------------------------------------------------------------
  // makeMath

  /** The sum of the numbers, accumulated from the left as the fold does. */
  function Sum(numbers: seq<int>): (r: int)
    ensures |numbers| == 1 ==> r == numbers[0]
    ensures (forall i :: 0 <= i < |numbers| ==> numbers[i] >= 0) ==> r >= 0
  {
    if numbers == [] then 0 else Sum(numbers[..|numbers| - 1]) + numbers[|numbers| - 1]
  }

  /** "<sum>=<a0>+<a1>+...+<an>"; "0=0" for an empty list. */
  function MakeMath(addends: seq<int>): (s: string)
    ensures addends == [] ==> s == "0=0"
    ensures var total := IntToString(Sum(addends));
      |total| < |s| && s[..|total|] == total && s[|total|] == '='
  {
    if |addends| == 0 then
      assert IntToString(0) == "0";
      "0=0"
    else IntToString(Sum(addends)) + "=" + Join(RenderAll(addends), '+')
  }

  /** The sum of a concatenation is the sum of the sums. */
  lemma {:induction false} SumConcat(a: seq<int>, b: seq<int>)
    ensures Sum(a + b) == Sum(a) + Sum(b)
  {
    if b == [] {
      assert a + b == a;
    } else {
      var n := |b| - 1;
      assert (a + b)[..|a + b| - 1] == a + b[..n];
      SumConcat(a, b[..n]);
    }
  }

  /** The first '=' of the equation ends the rendered sum and starts the joined addends. */
  lemma MakeMathEquals(addends: seq<int>)
    requires addends != []
    ensures var s := MakeMath(addends);
      var k := IndexOf(s, '=');
      k < |s| && s[..k] == IntToString(Sum(addends)) && s[k + 1..] == Join(RenderAll(addends), '+')
  {
    var total := IntToString(Sum(addends));
    var body := Join(RenderAll(addends), '+');
    assert MakeMath(addends) == total + ['='] + body;
    assert '=' !in total;
    IndexOfSeparator(total, '=', body);
  }

  /** The text before the first '=' parses to the sum of the addends. */
  lemma MakeMathReadsSum(addends: seq<int>)
    ensures var s := MakeMath(addends);
      var k := IndexOf(s, '=');
      k < |s| && ParseInt(s[..k]) == Some(Sum(addends))
  {
    if addends == [] {
      assert IndexOf("0=0", '=') == 1;
      assert "0=0"[..1] == "0";
    } else {
      MakeMathEquals(addends);
      ParseIntToString(Sum(addends));
    }
  }

  /** The '+'-separated parts after the first '=' convert back to the addends. */
  lemma MakeMathReadsAddends(addends: seq<int>)
    requires addends != []
    ensures var s := MakeMath(addends);
      var k := IndexOf(s, '=');
      k < |s| && StringsToIntegers(Split(s[k + 1..], '+')) == addends
  {
    MakeMathEquals(addends);
    var s := MakeMath(addends);
    var k := IndexOf(s, '=');
    var parts := RenderAll(addends);
    assert s[k + 1..] == Join(parts, '+');
    assert forall i :: 0 <= i < |parts| ==> '+' !in parts[i];
    SplitJoin(parts, '+');
    assert Split(s[k + 1..], '+') == parts;
    StringsToIntegersOfRendering(addends);
  }

  /** The empty list renders as the one-element list [0] does. */
  lemma MakeMathEmpty()
    ensures MakeMath([]) == "0=0" == MakeMath([0])
  {
  }

  /** The documented example: [1, 2, 3] gives "6=1+2+3". */
  lemma MakeMathExample()
    ensures MakeMath([1, 2, 3]) == "6=1+2+3"
  {
    assert Sum([1, 2, 3]) == 6 by {
      assert [1, 2, 3][..2] == [1, 2];
      assert [1, 2][..1] == [1];
      assert [1][..0] == [];
    }
    assert IntToString(6) == "6";
    assert RenderAll([1, 2, 3]) == ["1", "2", "3"];
    assert Join(["1", "2", "3"], '+') == "1+2+3" by {
      assert ["1", "2", "3"][1..] == ["2", "3"];
      assert ["2", "3"][1..] == ["3"];
    }
  }

  // ---------------------------------------------------------------------
  // injectPositive

  /** The position of the first negative number, or the length when there is none. */
  function FirstNegative(values: seq<int>): (k: nat)
    ensures k <= |values|
    ensures k < |values| ==> values[k] < 0
    ensures forall j :: 0 <= j < k ==> values[j] >= 0
  {
    if values == [] then 0 else if values[0] < 0 then 0 else 1 + FirstNegative(values[1..])
  }

  /** Extending the prefix by one number adds that number to the sum. */
  lemma SumStep(values: seq<int>, i: nat)
    requires i < |values|
    ensures Sum(values[..i + 1]) == Sum(values[..i]) + values[i]
  {
    assert values[..i + 1][..i] == values[..i];
  }

  /** A prefix grows by the next element. */
  lemma PrefixExtend(s: seq<int>, i: nat)
    requires i < |s|
    ensures s[..i + 1] == s[..i] + [s[i]]
  {
  }

  /** A slice that runs to the end is the suffix; the whole prefix is the sequence. */
  lemma SlicesToEnd(s: seq<int>)
    ensures s[..|s|] == s
    ensures forall a :: 0 <= a <= |s| ==> s[a..|s|] == s[a..]
  {
  }

  /** After the element at `k`, the slice up to `i` grows by the element at `i`. */
  lemma SuffixExtend(s: seq<int>, k: nat, i: nat, head: seq<int>)
    requires k < i < |s|
    ensures (head + s[k + 1..i]) + [s[i]] == head + s[k + 1..i + 1]
  {
    assert s[k + 1..i + 1] == s[k + 1..i] + [s[i]];
  }

  /**
   * The intended result: the numbers with the sum of all numbers before the
   * first negative inserted right after it, or with the total appended when
   * no number is negative.
   */
  function Injected(values: seq<int>): (r: seq<int>)
    ensures |r| == |values| + 1
    ensures values == [] ==> r == [0]
    ensures forall j :: 0 <= j < |values| && j <= FirstNegative(values) ==> r[j] == values[j]
    ensures forall j :: FirstNegative(values) < j < |values| ==> r[j + 1] == values[j]
  {
    var k := FirstNegative(values);
    if k == |values| then values + [Sum(values)]
    else values[..k + 1] + [Sum(values[..k])] + values[k + 1..]
  }

  /**
   * Taking the inserted number back out gives the input, and that number is
   * the sum of everything before the first negative (all of it if none).
   */
  lemma InjectedRemove(values: seq<int>)
    ensures var k := FirstNegative(values);
      var p := if k == |values| then k else k + 1;
      var out := Injected(values);
      p < |out| && out[p] == Sum(values[..k]) && out[..p] + out[p + 1..] == values
  {
    var k := FirstNegative(values);
    var out := Injected(values);
    if k == |values| {
      assert values[..k] == values;
      assert out[..k] == values;
    } else {
      assert out[..k + 1] == values[..k + 1];
      assert out[k + 2..] == values[k + 1..];
      assert values[..k + 1] + values[k + 1..] == values;
    }
  }

  /** A negative last number gets the sum right after it, and nothing is appended after that. */
  lemma {:induction false} InjectedTrailingNegative(values: seq<int>, last: int)
    requires forall j :: 0 <= j < |values| ==> values[j] >= 0
    requires last < 0
    ensures Injected(values + [last]) == values + [last, Sum(values)]
  {
    var v := values + [last];
    var k := |values|;
    assert forall j :: 0 <= j < k ==> v[j] == values[j];
    FirstNegativeAt(v, k);
    assert v[..k] == values;
    assert v[..k + 1] == v;
    assert v[k + 1..] == [];
    assert Injected(v) == v[..k + 1] + [Sum(v[..k])] + v[k + 1..];
  }

  /** A negative number with only non-negative numbers before it is the first negative. */
  lemma {:induction false} FirstNegativeAt(values: seq<int>, k: nat)
    requires k < |values| && values[k] < 0
    requires forall j :: 0 <= j < k ==> values[j] >= 0
    ensures FirstNegative(values) == k
  {
    if k > 0 {
      FirstNegativeAt(values[1..], k - 1);
    }
  }

  /** The documented example with a negative inside: [1, 9, -5, 7] gives [1, 9, -5, 10, 7]. */
  lemma InjectedExampleNegative()
    ensures Injected([1, 9, -5, 7]) == [1, 9, -5, 10, 7]
  {
    var v := [1, 9, -5, 7];
    FirstNegativeAt(v, 2);
    assert v[..2] == [1, 9];
    assert [1, 9][..1] == [1];
    assert [1][..0] == [];
    assert v[..3] == [1, 9, -5];
    assert v[3..] == [7];
  }

  /** The documented example without a negative: [1, 9, 7] gives [1, 9, 7, 17]. */
  lemma InjectedExampleNoNegative()
    ensures Injected([1, 9, 7]) == [1, 9, 7, 17]
  {
    var v := [1, 9, 7];
    assert FirstNegative(v) == 3;
    assert v[..2] == [1, 9];
    assert [1, 9][..1] == [1];
    assert [1][..0] == [];
  }

  /** A trailing negative: [3, -2] gives [3, -2, 3]. */
  lemma InjectedExampleTrailing()
    ensures Injected([3, -2]) == [3, -2, 3]
  {
    InjectedTrailingNegative([3], -2);
    assert [3] + [-2] == [3, -2];
    assert [3][..0] == [];
  }

  /**
   * The state of the pass after the first `i` values: the flag says whether
   * the first negative has been visited; until then the running sum is the
   * sum of the prefix and the output is the prefix (plus the sum once the
   * last value is visited); from then on the output is the intended result
   * cut after position `i`.
   */
  ghost predicate Visited(values: seq<int>, i: nat, sumArr: seq<int>, sum: int, negativePassed: bool): (b: bool)
    requires i <= |values|
    ensures b && i == |values| ==> sumArr == Injected(values)
  {
    SlicesToEnd(values);
    Visiting(values, i, sumArr, sum, negativePassed)
  }

  /** The conjuncts of Visited. */
  ghost predicate Visiting(values: seq<int>, i: nat, sumArr: seq<int>, sum: int, negativePassed: bool)
    requires i <= |values|
  {
    var k := FirstNegative(values);
    (negativePassed <==> k < i) &&
    (!negativePassed ==> sum == Sum(values[..i])) &&
    (!negativePassed && i < |values| ==> sumArr == values[..i]) &&
    (!negativePassed && i == |values| ==> sumArr == values + [sum]) &&
    (negativePassed ==> sumArr == values[..k + 1] + [Sum(values[..k])] + values[k + 1..i])
  }

  /**
   * The `reduce` callback: push the value, add it to the running sum when it
   * is non-negative, push the sum after the first negative, and push it after
   * the last value when no negative was passed. It keeps the state of the pass.
   */
  method Visit(values: seq<int>, sumArr: seq<int>, value: int, i: nat, sum: int, negativePassed: bool)
    returns (sumArr': seq<int>, sum': int, negativePassed': bool)
    requires i < |values| && value == values[i]
    requires Visited(values, i, sumArr, sum, negativePassed)
    ensures Visited(values, i + 1, sumArr', sum', negativePassed')
  {
    ghost var k := FirstNegative(values);
    SumStep(values, i);
    PrefixExtend(values, i);
    if negativePassed {
      SuffixExtend(values, k, i, values[..k + 1] + [Sum(values[..k])]);
    }
    sumArr', sum', negativePassed' := sumArr + [value], sum, negativePassed;
    if value >= 0 {
      sum' := sum' + value;
    }
    if value < 0 && !negativePassed' {
      assert values[k + 1..i + 1] == [];
      sumArr' := sumArr' + [sum'];
      negativePassed' := true;
    }
    if i == |values| - 1 && !negativePassed' {
      assert values[..i + 1] == values;
      sumArr' := sumArr' + [sum'];
    }
  }

  /**
   * One forward pass over the values with a running sum and a flag for "a
   * negative was passed"; the empty list gives [0].
   */
  method InjectPositive(values: seq<int>) returns (sumArr: seq<int>)
    ensures sumArr == Injected(values)
    ensures |sumArr| == |values| + 1
  {
    if |values| == 0 {
      return [0];
    }
    var sum := 0;
    var negativePassed := false;
    sumArr := [];
    var i := 0;
    while i < |values|
      invariant 0 <= i <= |values|
      invariant Visited(values, i, sumArr, sum, negativePassed)
    {
      sumArr, sum, negativePassed := Visit(values, sumArr, values[i], i, sum, negativePassed);
      i := i + 1;
    }
  }
}
