/** Strings as sequences of code points, in the order Python compares them. */
module Text {
  import opened Sorting

  /** Code-point lexicographic order. */
  predicate Le(a: string, b: string) {
    a == [] || (b != [] && (a[0] < b[0] || (a[0] == b[0] && Le(a[1..], b[1..]))))
  }

  predicate Lt(a: string, b: string) {
    a != b && Le(a, b)
  }

  lemma {:induction false} LeTotal(a: string, b: string)
    ensures Le(a, b) || Le(b, a)
  {
    if a != [] && b != [] && a[0] == b[0] {
      LeTotal(a[1..], b[1..]);
    }
  }

  lemma {:induction false} LeAntisymmetric(a: string, b: string)
    requires Le(a, b) && Le(b, a)
    ensures a == b
  {
    if a != [] && b != [] {
      LeAntisymmetric(a[1..], b[1..]);
      assert a == [a[0]] + a[1..];
      assert b == [b[0]] + b[1..];
    }
  }

  lemma {:induction false} LeTransitive(a: string, b: string, c: string)
    requires Le(a, b) && Le(b, c)
    ensures Le(a, c)
  {
    if a != [] && a[0] == b[0] && b[0] == c[0] {
      LeTransitive(a[1..], b[1..], c[1..]);
    }
  }

  lemma LeIsTotalOrder()
    ensures TotalOrder(Le)
  {
    forall x: string, y: string ensures Le(x, y) || Le(y, x) {
      LeTotal(x, y);
    }
    forall x: string, y: string, z: string | Le(x, y) && Le(y, z) ensures Le(x, z) {
      LeTransitive(x, y, z);
    }
    forall x: string, y: string | Le(x, y) && Le(y, x) ensures x == y {
      LeAntisymmetric(x, y);
    }
  }

  /** `i` is where two texts first differ; the shorter of two that agree that far ends there. */
  predicate DifferAt(a: string, b: string, i: nat) {
    && i <= |a| && i <= |b| && a[..i] == b[..i]
    && (i < |a| && i < |b| ==> a[i] != b[i])
    && (i < |a| || i < |b|)
  }

  lemma {:induction false} FirstDifference(a: string, b: string) returns (i: nat)
    requires a != b
    ensures DifferAt(a, b, i)
  {
    if a == [] || b == [] || a[0] != b[0] {
      i := 0;
    } else {
      assert a == [a[0]] + a[1..] && b == [b[0]] + b[1..];
      var k := FirstDifference(a[1..], b[1..]);
      i := k + 1;
      assert a[..i] == [a[0]] + a[1..][..k] && b[..i] == [b[0]] + b[1..][..k];
    }
  }

  /** The first differing code point decides the order, or the end of the text that has none. */
  lemma {:induction false} FirstDifferenceDecides(a: string, b: string, i: nat)
    requires DifferAt(a, b, i)
    ensures Le(a, b) <==> i == |a| || (i < |b| && a[i] as int < b[i] as int)
  {
    if i > 0 {
      assert a[0] == a[..i][0] == b[..i][0] == b[0];
      assert a[1..][..i - 1] == a[..i][1..] && b[1..][..i - 1] == b[..i][1..];
      FirstDifferenceDecides(a[1..], b[1..], i - 1);
    }
  }

  /** `sorted(texts)` of a set of texts. */
  function InOrder(texts: set<string>): (r: seq<string>)
    ensures forall t :: t in r <==> t in texts
    ensures |r| == |texts|
    ensures NoDuplicates(r) && Sorted(r, Le)
  {
    LeIsTotalOrder();
    Listing(texts, Le)
  }

  predicate IsHex(c: char) {
    '0' <= c <= '9' || 'a' <= c <= 'f'
  }

  lemma HexDigitsAre(c: char)
    ensures IsHex(c) <==> c in "0123456789abcdef"
  {
    var digits := "0123456789abcdef";
    if IsHex(c) {
      var k := if c <= '9' then c as int - '0' as int else c as int - 'a' as int + 10;
      assert c == digits[k];
    }
  }

  /** `n` lowercase hexadecimal digits and nothing else. */
  predicate HexDigits(s: string, n: nat) {
    |s| == n && forall i | 0 <= i < |s| :: IsHex(s[i])
  }

  lemma HexDigitsMean(s: string, n: nat)
    ensures HexDigits(s, n) <==> |s| == n && forall i | 0 <= i < n :: s[i] in "0123456789abcdef"
  {
    forall c: char ensures IsHex(c) <==> c in "0123456789abcdef" {
      HexDigitsAre(c);
    }
    hide IsHex;
  }

  /** Python's order of tuples of strings. */
  predicate TupleLe(a: seq<string>, b: seq<string>) {
    a == [] || (b != [] && (Lt(a[0], b[0]) || (a[0] == b[0] && TupleLe(a[1..], b[1..]))))
  }

  lemma {:induction false} TupleLeTotal(a: seq<string>, b: seq<string>)
    ensures TupleLe(a, b) || TupleLe(b, a)
  {
    if a != [] && b != [] {
      LeTotal(a[0], b[0]);
      TupleLeTotal(a[1..], b[1..]);
    }
  }

  lemma {:induction false} TupleLeAntisymmetric(a: seq<string>, b: seq<string>)
    requires TupleLe(a, b) && TupleLe(b, a)
    ensures a == b
  {
    hide Le;
    if a != [] && b != [] {
      if a[0] != b[0] {
        LeAntisymmetric(a[0], b[0]);
      }
      TupleLeAntisymmetric(a[1..], b[1..]);
      assert a == [a[0]] + a[1..];
      assert b == [b[0]] + b[1..];
    }
  }

  lemma {:induction false} TupleLeTransitive(a: seq<string>, b: seq<string>, c: seq<string>)
    requires TupleLe(a, b) && TupleLe(b, c)
    ensures TupleLe(a, c)
  {
    hide Le;
    if a != [] {
      if a[0] == b[0] && b[0] == c[0] {
        TupleLeTransitive(a[1..], b[1..], c[1..]);
      } else if a[0] != b[0] && b[0] != c[0] {
        LeTransitive(a[0], b[0], c[0]);
        if a[0] == c[0] {
          LeAntisymmetric(a[0], b[0]);
        }
      }
    }
  }

  /** The first differing component decides the order of two tuples of one length. */
  lemma {:induction false} FirstComponentDecides(a: seq<string>, b: seq<string>, i: nat)
    requires |a| == |b| && i < |a| && a[..i] == b[..i] && a[i] != b[i]
    ensures TupleLe(a, b) <==> Le(a[i], b[i])
  {
    if i > 0 {
      assert a[0] == a[..i][0] == b[..i][0] == b[0];
      assert a[1..][..i - 1] == a[..i][1..] && b[1..][..i - 1] == b[..i][1..];
      FirstComponentDecides(a[1..], b[1..], i - 1);
    }
  }

  lemma TupleLeIsTotalOrder()
    ensures TotalOrder(TupleLe)
  {
    hide TupleLe;
    forall x: seq<string>, y: seq<string> ensures TupleLe(x, y) || TupleLe(y, x) {
      TupleLeTotal(x, y);
    }
    forall x: seq<string>, y: seq<string>, z: seq<string> | TupleLe(x, y) && TupleLe(y, z) ensures TupleLe(x, z) {
      TupleLeTransitive(x, y, z);
    }
    forall x: seq<string>, y: seq<string> | TupleLe(x, y) && TupleLe(y, x) ensures x == y {
      TupleLeAntisymmetric(x, y);
    }
  }
}
