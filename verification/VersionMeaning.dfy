/** Version keys and their order, read off the characters of a version. */
module VersionMeaning {
  import opened Wrappers
  import opened VersionOrder
  import D = Decimals
  import Text

  predicate AllDigitChars(run: string, t: Tables) {
    forall i | 0 <= i < |run| :: t.digit(run[i])
  }

  predicate AllLetters(run: string, t: Tables) {
    forall i | 0 <= i < |run| :: !t.digit(run[i]) && t.alpha(run[i])
  }

  /** The number a row of decimal digits stands for, each digit at its place. */
  function PlaceValue(digits: seq<nat>): nat {
    if digits == [] then 0 else digits[0] * D.Pow10(|digits| - 1) + PlaceValue(digits[1..])
  }

  /** The decimal values of a run's characters. */
  predicate HasDigits(run: string, digits: seq<nat>, t: Tables) {
    |digits| == |run| && forall i | 0 <= i < |run| :: t.decimal(run[i]) == Some(digits[i])
  }

  lemma {:induction false} PlaceValueNext(digits: seq<nat>, d: nat)
    ensures PlaceValue(digits + [d]) == 10 * PlaceValue(digits) + d
  {
    if digits == [] {
      assert (digits + [d])[1..] == [];
      assert D.Pow10(0) == 1;
    } else {
      PlaceValueNext(digits[1..], d);
      assert (digits + [d])[1..] == digits[1..] + [d];
      assert D.Pow10(|digits|) == 10 * D.Pow10(|digits| - 1);
      Shift(digits[0], D.Pow10(|digits| - 1), PlaceValue(digits[1..]), d);
    }
  }

  lemma Shift(x: nat, p: nat, rest: nat, d: nat)
    ensures x * (10 * p) + (10 * rest + d) == 10 * (x * p + rest) + d
  {
  }

  lemma {:induction false} ReadIntExactly(run: string, digits: seq<nat>, t: Tables)
    ensures HasDigits(run, digits, t) ==> ReadInt(run, t) == Some(PlaceValue(digits))
  {
    if run != [] && HasDigits(run, digits, t) {
      var (rest, last) := (digits[..|digits| - 1], digits[|digits| - 1]);
      ReadIntExactly(run[..|run| - 1], rest, t);
      assert digits == rest + [last];
      PlaceValueNext(rest, last);
    }
  }

  lemma {:induction false} Unreadable(run: string, i: nat, t: Tables)
    requires i < |run| && t.decimal(run[i]) == None
    ensures ReadInt(run, t) == None
  {
    if i < |run| - 1 {
      Unreadable(run[..|run| - 1], i, t);
    }
  }

  lemma KeyOfNothing(t: Tables)
    ensures Key("", t) == Some([])
  {
  }

  /** What is neither digit nor letter only separates. */
  lemma KeyAfterSeparator(c: char, rest: string, t: Tables)
    requires !t.digit(c) && !t.alpha(c)
    ensures Key([c] + rest, t) == Key(rest, t)
  {
    assert ([c] + rest)[1..] == rest;
    SkipSeparator([c] + rest, t);
  }

  function Prefixed(p: Part, k: Option<seq<Part>>): Option<seq<Part>> {
    match k case Some(parts) => Some([p] + parts) case None => None
  }

  lemma FirstPart(run: Run, rest: string, k: Kind, t: Tables)
    requires k != OtherKind && Pure(run, k, t) && (rest != [] ==> KindOf(rest[0], t) != k)
    ensures Key(run + rest, t) ==
      if PartOf(run, t).None? then None else Prefixed(PartOf(run, t).value, Key(rest, t))
  {
    FirstRun(run, rest, k, t);
    var runs := Runs(rest, t);
    assert ([run] + runs)[1..] == runs;
    hide Runs, PartOf;
  }

  /** A longest run of letters is one word of the key. */
  lemma KeyAfterLetters(run: string, rest: string, t: Tables)
    requires run != "" && AllLetters(run, t) && (rest != "" ==> t.digit(rest[0]) || !t.alpha(rest[0]))
    ensures Key(run + rest, t) == Prefixed(Letters(run), Key(rest, t))
  {
    hide Key;
    FirstPart(run, rest, AlphaKind, t);
  }

  /** A longest run of digits is one number of the key, or leaves the version without a key. */
  lemma KeyAfterDigits(run: string, rest: string, digits: seq<nat>, t: Tables)
    requires run != "" && AllDigitChars(run, t) && (rest != "" ==> !t.digit(rest[0]))
    ensures HasDigits(run, digits, t) ==> Key(run + rest, t) == Prefixed(Number(PlaceValue(digits)), Key(rest, t))
    ensures (exists i | 0 <= i < |run| :: t.decimal(run[i]) == None) ==> Key(run + rest, t) == None
  {
    ReadIntExactly(run, digits, t);
    if i :| 0 <= i < |run| && t.decimal(run[i]) == None {
      Unreadable(run, i, t);
    }
    hide Key, ReadInt, PlaceValue;
    FirstPart(run, rest, DigitKind, t);
  }

  // ---- the order ---------------------------------------------------------------------------------------------

  /** Which of two different parts comes first: a word before any number, words as text, numbers by value. */
  predicate ComesFirst(p: Part, q: Part) {
    match (p, q)
    case (Letters(a), Letters(b)) => Text.Le(a, b)
    case (Letters(_), Number(_)) => true
    case (Number(_), Letters(_)) => false
    case (Number(m), Number(n)) => m < n
  }

  /** The first differing part decides; a key that ends there comes first. */
  lemma {:induction false} FirstPartDecides(a: seq<Part>, b: seq<Part>, i: nat)
    requires i <= |a| && i <= |b| && a[..i] == b[..i] && (i < |a| && i < |b| ==> a[i] != b[i])
    ensures KeyLe(a, b) <==> i == |a| || (i < |b| && ComesFirst(a[i], b[i]))
  {
    if i > 0 {
      assert a[0] == a[..i][0] == b[..i][0] == b[0];
      assert a[1..][..i - 1] == a[..i][1..] && b[1..][..i - 1] == b[..i][1..];
      FirstPartDecides(a[1..], b[1..], i - 1);
    }
  }
}
