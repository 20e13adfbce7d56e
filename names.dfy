/** The suffix-incrementing identifier generator used to resolve name
    collisions while inlining a method: a trailing run of decimal digits is
    read as a number and incremented, a name without such a run gets "1"
    appended.  Digits are the ASCII digits '0'..'9' and the suffix value is
    an unbounded natural number. */
module NameGenerator {

  predicate IsDigit(c: char) {
    '0' <= c <= '9'
  }

  predicate AllDigits(s: string) {
    s == [] || (IsDigit(s[|s| - 1]) && AllDigits(s[..|s| - 1]))
  }

  /** AllDigits holds exactly when every character is a digit. */
  lemma {:induction false} AllDigitsEvery(s: string)
    ensures AllDigits(s) <==> forall i :: 0 <= i < |s| ==> IsDigit(s[i])
  {
    if s != [] {
      AllDigitsEvery(s[..|s| - 1]);
    }
  }

  predicate EndsInDigit(s: string) {
    |s| > 0 && IsDigit(s[|s| - 1])
  }

  /** Length of the maximal run of digits at the end of `s`. */
  function TrailingDigitCount(s: string): (k: nat)
    ensures k <= |s|
    ensures AllDigits(s[|s| - k..])
    ensures k < |s| ==> !IsDigit(s[|s| - k - 1])
  {
    if EndsInDigit(s) then
      var k' := TrailingDigitCount(s[..|s| - 1]);
      var run := s[|s| - (k' + 1)..];
      assert run[..|run| - 1] == s[..|s| - 1][|s| - 1 - k'..];
      assert run[|run| - 1] == s[|s| - 1];
      k' + 1
    else
      0
  }

  /** `s` without its trailing digit run. */
  function Stem(s: string): string {
    s[..|s| - TrailingDigitCount(s)]
  }

  function DigitValue(c: char): nat
    requires IsDigit(c)
  {
    c as int - '0' as int
  }

  function DigitChar(d: nat): char
    requires d < 10
  {
    ('0' as int + d) as char
  }

  /** The value of a string of decimal digits (what `int.Parse` computes,
      without the 32-bit bound). */
  function ParseDigits(s: string): nat
    requires AllDigits(s)
  {
    if s == [] then 0 else ParseDigits(s[..|s| - 1]) * 10 + DigitValue(s[|s| - 1])
  }

  /** `n` divided by ten, by repeated subtraction. */
  function Tens(n: nat): (q: nat)
    ensures n >= 10 ==> 0 < q < n
  {
    if n < 10 then 0 else Tens(n - 10) + 1
  }

  /** The last decimal digit of `n`. */
  function Units(n: nat): (d: nat)
    ensures d < 10
  {
    if n < 10 then n else Units(n - 10)
  }

  lemma {:induction false} TensUnits(n: nat)
    ensures n == Tens(n) * 10 + Units(n)
  {
    if n >= 10 {
      TensUnits(n - 10);
    }
  }

  /** Decimal representation of `n`, without leading zeros. */
  function NatToString(n: nat): (r: string)
    ensures |r| > 0 && AllDigits(r)
    ensures |r| > 1 ==> r[0] != '0'
  {
    if n < 10 then [DigitChar(n)] else NatToString(Tens(n)) + [DigitChar(Units(n))]
  }

  /** The numeric value of the trailing digit run, 0 when there is none. */
  function SuffixValue(s: string): nat {
    var k := TrailingDigitCount(s);
    if k == 0 then 0 else ParseDigits(s[|s| - k..])
  }

  /** The name produced by one call of the generator. */
  function NewName(name: string): string {
    var k := TrailingDigitCount(name);
    var suffixNumber := if k == 0 then 1 else ParseDigits(name[|name| - k..]) + 1;
    name[..|name| - k] + NatToString(suffixNumber)
  }

  /** The generator: scans the name backwards, pushing digits onto a stack
      until the first non-digit, then replaces the stacked run by its value
      plus one (or appends 1 when the stack stayed empty). */
  method GenerateNewName(identifierName: string) returns (r: string)
    ensures r == NewName(identifierName)
  {
    var stack: seq<char> := [];  // stack[0] is the top; ToArray yields this order
    var i := |identifierName| - 1;
    while i >= 0
      invariant -1 <= i < |identifierName|
      invariant stack == identifierName[i + 1..]
      invariant forall j :: 0 <= j < |stack| ==> IsDigit(stack[j])
      decreases i
    {
      var currentCharacter := identifierName[i];
      if IsDigit(currentCharacter) {
        stack := [currentCharacter] + stack;
      } else {
        break;
      }
      i := i - 1;
    }
    AllDigitsEvery(stack);
    var suffixNumber := if stack == [] then 1 else ParseDigits(stack) + 1;
    r := identifierName[..i + 1] + NatToString(suffixNumber);
    NewNameOfRun(identifierName, i + 1);
  }

  /** NewName in terms of a maximal trailing digit run starting at `p`. */
  lemma NewNameOfRun(s: string, p: nat)
    requires p <= |s|
    requires AllDigits(s[p..])
    requires p > 0 ==> !IsDigit(s[p - 1])
    ensures NewName(s) == s[..p] + NatToString(if p == |s| then 1 else ParseDigits(s[p..]) + 1)
  {
    TrailingDigitCountUnique(s, |s| - p);
  }

  /** Any digit run that cannot be extended to the left is the maximal one. */
  lemma {:induction false} TrailingDigitCountUnique(s: string, k: nat)
    requires k <= |s|
    requires AllDigits(s[|s| - k..])
    requires k < |s| ==> !IsDigit(s[|s| - k - 1])
    ensures TrailingDigitCount(s) == k
  {
    if k > 0 {
      DigitRunShrinks(s, k);
      TrailingDigitCountUnique(s[..|s| - 1], k - 1);
    }
  }

  /** Dropping the last character of a name shortens its trailing digit
      run by one. */
  lemma DigitRunShrinks(s: string, k: nat)
    requires 0 < k <= |s|
    requires AllDigits(s[|s| - k..])
    requires k < |s| ==> !IsDigit(s[|s| - k - 1])
    ensures EndsInDigit(s)
    ensures AllDigits(s[..|s| - 1][|s| - k..])
    ensures k - 1 < |s| - 1 ==> !IsDigit(s[..|s| - 1][|s| - k - 1])
  {
    var run := s[|s| - k..];
    assert run[|run| - 1] == s[|s| - 1];
    assert run[..|run| - 1] == s[..|s| - 1][|s| - k..];
  }

  /** Reading back the decimal representation gives the number. */
  lemma {:induction false} ParseNatToString(n: nat)
    ensures ParseDigits(NatToString(n)) == n
  {
    var s := NatToString(n);
    if n < 10 {
      assert s[..|s| - 1] == [];
    } else {
      assert s[..|s| - 1] == NatToString(Tens(n));
      ParseNatToString(Tens(n));
      TensUnits(n);
    }
  }

  /** Appending a digit string to a stem that does not end in a digit makes
      that string the trailing digit run. */
  lemma TrailingDigitsOfAppend(p: string, ds: string)
    requires !EndsInDigit(p)
    requires AllDigits(ds)
    ensures TrailingDigitCount(p + ds) == |ds|
  {
    var s := p + ds;
    assert s[|s| - |ds|..] == ds;
    if |ds| < |s| {
      assert s[|s| - |ds| - 1] == p[|p| - 1];
    }
    TrailingDigitCountUnique(s, |ds|);
  }

  lemma StemDoesNotEndInDigit(s: string)
    ensures !EndsInDigit(Stem(s))
  {
  }

  /** A name without a trailing digit gets "1" appended (x -> x1). */
  lemma NewNameWithoutDigits(name: string)
    requires !EndsInDigit(name)
    ensures NewName(name) == name + "1"
  {
    assert TrailingDigitCount(name) == 0;
    assert name[..|name|] == name;
  }

  /** A name `p + ds` whose maximal trailing digit run is `ds` becomes `p`
      followed by the decimal value of `ds` plus one (a9 -> a10). */
  lemma NewNameWithDigits(p: string, ds: string)
    requires !EndsInDigit(p)
    requires ds != [] && AllDigits(ds)
    ensures NewName(p + ds) == p + NatToString(ParseDigits(ds) + 1)
  {
    var s := p + ds;
    assert s[..|p|] == p;
    assert s[|p|..] == ds;
    if |p| > 0 {
      assert s[|p| - 1] == p[|p| - 1];
    }
    NewNameOfRun(s, |p|);
  }

  /** The generated name ends in a digit and differs from its input. */
  lemma NewNameIsDifferent(name: string)
    ensures EndsInDigit(NewName(name))
    ensures NewName(name) != name
  {
    var k := TrailingDigitCount(name);
    var p := name[..|name| - k];
    var v := if k == 0 then 1 else ParseDigits(name[|name| - k..]) + 1;
    var r := NewName(name);
    assert r == p + NatToString(v);
    if k == 0 {
      assert |r| > |name|;
    } else if r == name {
      var ds := name[|name| - k..];
      assert name == p + ds;
      assert ds == NatToString(v);
      ParseNatToString(v);
      assert false;
    }
  }

  /** One step of the generator keeps the stem and adds one to the suffix
      value. */
  lemma NewNameAdvances(name: string)
    ensures Stem(NewName(name)) == Stem(name)
    ensures SuffixValue(NewName(name)) == SuffixValue(name) + 1
  {
    var k := TrailingDigitCount(name);
    var p := name[..|name| - k];
    assert p == Stem(name);
    StemDoesNotEndInDigit(name);
    var v := if k == 0 then 1 else ParseDigits(name[|name| - k..]) + 1;
    var ds := NatToString(v);
    var r := p + ds;
    assert r == NewName(name);
    TrailingDigitsOfAppend(p, ds);
    assert r[..|r| - |ds|] == p;
    assert r[|r| - |ds|..] == ds;
    ParseNatToString(v);
  }

  lemma ExampleWithoutDigits()
    ensures NewName("x") == "x1"
    ensures NewName("count") == "count1"
  {
    NewNameWithoutDigits("x");
    NewNameWithoutDigits("count");
  }

  lemma ExampleCount1()
    ensures NewName("count1") == "count2"
  {
    NewNameWithDigits("count", "1");
    assert "count" + "1" == "count1";
  }

  lemma ExampleA9()
    ensures NewName("a9") == "a10"
  {
    NewNameWithDigits("a", "9");
    assert "a" + "9" == "a9";
    assert NatToString(10) == "10";
  }

  lemma ExampleItem12()
    ensures NewName("item12") == "item13"
  {
    NewNameWithDigits("item", "12");
    assert "item" + "12" == "item12";
    assert ParseDigits("12") == 12 by {
      assert "12"[..1] == "1";
      assert "1"[..0] == "";
    }
    assert NatToString(13) == "13";
  }

  /** `i` applications of the generator to `name`. */
  function Iterate(name: string, i: nat): string
    decreases i
  {
    if i == 0 then name else Iterate(NewName(name), i - 1)
  }

  /** The names of `taken` that the generator can still reach from `name`:
      same stem, suffix value not below that of `name`. */
  function Pending(name: string, taken: set<string>): set<string> {
    set c | c in taken && Stem(c) == Stem(name) && SuffixValue(c) >= SuffixValue(name)
  }

  lemma PendingShrinks(name: string, taken: set<string>)
    requires name in taken
    ensures |Pending(NewName(name), taken)| < |Pending(name, taken)|
  {
    NewNameAdvances(name);
    var before := Pending(name, taken);
    var after := Pending(NewName(name), taken);
    var gone := before - after;
    assert after <= before;
    assert name in gone;
    assert before == after + gone;
    assert after * gone == {};
  }

  /** The first name reached from `name` by the generator that is not in
      `taken`: the result of a collision-avoidance loop. */
  function Escape(name: string, taken: set<string>): (r: string)
    ensures r !in taken
    ensures name !in taken ==> r == name
    decreases |Pending(name, taken)|
  {
    if name !in taken then
      name
    else
      PendingShrinks(name, taken);
      Escape(NewName(name), taken)
  }

  lemma PendingWithinTaken(name: string, taken: set<string>)
    ensures |Pending(name, taken)| <= |taken|
  {
    var pending := Pending(name, taken);
    assert taken == pending + (taken - pending);
  }

  /** Number of generator steps the collision-avoidance loop takes. */
  function EscapeSteps(name: string, taken: set<string>): nat
    decreases |Pending(name, taken)|
  {
    if name !in taken then
      0
    else
      PendingShrinks(name, taken);
      EscapeSteps(NewName(name), taken) + 1
  }

  /** The loop needs at most |taken| generator steps. */
  lemma {:induction false} EscapeStepsBounded(name: string, taken: set<string>)
    ensures EscapeSteps(name, taken) <= |Pending(name, taken)| <= |taken|
    decreases |Pending(name, taken)|
  {
    PendingWithinTaken(name, taken);
    if name in taken {
      PendingShrinks(name, taken);
      EscapeStepsBounded(NewName(name), taken);
    }
  }

  /** The loop result is the iterate reached after EscapeSteps steps. */
  lemma {:induction false} EscapeIsIterate(name: string, taken: set<string>)
    ensures Escape(name, taken) == Iterate(name, EscapeSteps(name, taken))
    decreases |Pending(name, taken)|
  {
    if name in taken {
      PendingShrinks(name, taken);
      EscapeIsIterate(NewName(name), taken);
    }
  }

  /** Every iterate before the loop result is taken, so the loop result is
      the first free iterate. */
  lemma {:induction false} EscapeSkipsOnlyTaken(name: string, taken: set<string>, j: nat)
    requires j < EscapeSteps(name, taken)
    ensures Iterate(name, j) in taken
    decreases |Pending(name, taken)|
  {
    assert name in taken;
    PendingShrinks(name, taken);
    if j > 0 {
      EscapeSkipsOnlyTaken(NewName(name), taken, j - 1);
    }
  }

  /** The collision-avoidance loop: generate new names until one is free. */
  method AvoidTakenNames(name: string, taken: set<string>) returns (r: string)
    ensures r !in taken
    ensures r == Escape(name, taken)
  {
    r := name;
    while r in taken
      invariant Escape(r, taken) == Escape(name, taken)
      decreases |Pending(r, taken)|
    {
      PendingShrinks(r, taken);
      r := GenerateNewName(r);
    }
  }
}
