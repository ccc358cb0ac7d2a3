/**
 * GC content of a nucleotide sequence: the share of G and C among the four
 * canonical bases, counted case-insensitively. Every other character
 * (N and the other ambiguity codes, gaps, digits) is left out of both counts.
 */
module SequenceAnalysis {

  import opened PyStr

  /** How often `c` occurs in `s` (the entry `Counter(s)[c]`, 0 when absent). */
  function Count(s: string, c: char): nat {
    if s == [] then 0 else (if s[0] == c then 1 else 0) + Count(s[1..], c)
  }

  /** A canonical base letter in upper case. */
  predicate IsBase(c: char) {
    c == 'A' || c == 'T' || c == 'G' || c == 'C'
  }

  /** The four counts taken from the upper-cased sequence. */
  datatype BaseCounts = BaseCounts(a: nat, t: nat, g: nat, c: nat) {
    function Total(): nat { a + t + g + c }
  }

  /** Counts of A, T, G and C in `seq.upper()`. */
  function CountBases(s: string): BaseCounts {
    var u := Upper(s);
    BaseCounts(Count(u, 'A'), Count(u, 'T'), Count(u, 'G'), Count(u, 'C'))
  }

  /** A share p / q of a positive whole q lies in [0, 1], is 0 only for p = 0 and 1 only for p = q. */
  lemma Share(p: nat, q: nat)
    requires 0 < q && p <= q
    ensures 0.0 <= p as real / q as real <= 1.0
    ensures p as real / q as real == 0.0 <==> p == 0
    ensures p as real / q as real == 1.0 <==> p == q
  {
    var r := p as real / q as real;
    assert r * q as real == p as real;
  }

  /**
   * `calculate_gc_content`: (G + C) / (A + T + G + C), or 0 when the sequence
   * holds none of the four bases. The ratio is exact (a real, not a float).
   * It is 0 exactly when there is no G or C, and 1 exactly when there is a
   * base and every base is G or C.
   */
  function GcContent(s: string): (r: real)
    ensures 0.0 <= r <= 1.0
    ensures r == 0.0 <==> CountBases(s).g + CountBases(s).c == 0
    ensures r == 1.0 <==> CountBases(s).Total() > 0 && CountBases(s).a + CountBases(s).t == 0
  {
    var n := CountBases(s);
    if n.Total() == 0 then 0.0
    else
      Share(n.g + n.c, n.Total());
      (n.g + n.c) as real / n.Total() as real
  }

  /** Counting distributes over concatenation. */
  lemma {:induction false} CountConcat(s: string, t: string, c: char)
    ensures Count(s + t, c) == Count(s, c) + Count(t, c)
  {
    if s != [] {
      assert (s + t)[1..] == s[1..] + t;
      CountConcat(s[1..], t, c);
    } else {
      assert s + t == t;
    }
  }

  /** A character that never occurs counts 0. */
  lemma {:induction false} CountAbsent(s: string, c: char)
    requires forall i :: 0 <= i < |s| ==> s[i] != c
    ensures Count(s, c) == 0
  {
    if s != [] {
      CountAbsent(s[1..], c);
    }
  }

  /** A character that occurs somewhere counts at least 1. */
  lemma {:induction false} CountPresent(s: string, c: char, i: nat)
    requires i < |s| && s[i] == c
    ensures Count(s, c) >= 1
  {
    if i > 0 {
      CountPresent(s[1..], c, i - 1);
    }
  }

  /** Upper-casing restricts to the first character and the rest. */
  lemma UpperCons(s: string)
    requires s != []
    ensures Upper(s) == [ToUpperChar(s[0])] + Upper(s[1..])
  {
  }

  /**
   * After upper-casing, a capital letter counts its own occurrences plus
   * those of its small form.
   */
  lemma {:induction false} CountUpper(s: string, c: char)
    requires 'A' <= c <= 'Z'
    ensures Count(Upper(s), c) == Count(s, c) + Count(s, ToLowerChar(c))
  {
    if s != [] {
      UpperCons(s);
      CountUpper(s[1..], c);
    }
  }

  /**
   * The ratio in terms of the sequence as given: G, g, C and c over all of
   * A, a, T, t, G, g, C and c.
   */
  lemma GcOfMixedCase(s: string)
    ensures var upper := Count(s, 'A') + Count(s, 'T') + Count(s, 'G') + Count(s, 'C');
      var lower := Count(s, 'a') + Count(s, 't') + Count(s, 'g') + Count(s, 'c');
      var gc := Count(s, 'G') + Count(s, 'g') + Count(s, 'C') + Count(s, 'c');
      GcContent(s) == if upper + lower == 0 then 0.0 else gc as real / (upper + lower) as real
  {
    var n := CountBases(s);
    assert n.a == Count(s, 'A') + Count(s, 'a') by { CountUpper(s, 'A'); }
    assert n.t == Count(s, 'T') + Count(s, 't') by { CountUpper(s, 'T'); }
    assert n.g == Count(s, 'G') + Count(s, 'g') by { CountUpper(s, 'G'); }
    assert n.c == Count(s, 'C') + Count(s, 'c') by { CountUpper(s, 'C'); }
  }

  /** The ratio does not depend on letter case. */
  lemma GcIgnoresCase(s: string)
    ensures GcContent(Upper(s)) == GcContent(s)
    ensures GcContent(Lower(s)) == GcContent(s)
  {
    UpperIdempotent(s);
    UpperOfLower(s);
  }

  /** A string whose characters are none of the bases, in either case. */
  predicate NoBases(x: string) {
    forall j :: 0 <= j < |x| ==> !IsBase(ToUpperChar(x[j]))
  }

  /** Such a string contributes nothing to any of the four counts. */
  lemma NoBasesCountZero(x: string)
    requires NoBases(x)
    ensures CountBases(x) == BaseCounts(0, 0, 0, 0)
  {
    var u := Upper(x);
    CountAbsent(u, 'A');
    CountAbsent(u, 'T');
    CountAbsent(u, 'G');
    CountAbsent(u, 'C');
  }

  /** The counts of a concatenation add up. */
  lemma CountBasesConcat(s: string, t: string)
    ensures CountBases(s + t) == BaseCounts(
      CountBases(s).a + CountBases(t).a, CountBases(s).t + CountBases(t).t,
      CountBases(s).g + CountBases(t).g, CountBases(s).c + CountBases(t).c)
  {
    CaseMapsConcat(s, t);
    var us, ut := Upper(s), Upper(t);
    CountConcat(us, ut, 'A');
    CountConcat(us, ut, 'T');
    CountConcat(us, ut, 'G');
    CountConcat(us, ut, 'C');
  }

  /**
   * Characters other than the four bases are ignored: inserting any run of
   * them anywhere leaves the ratio unchanged.
   */
  lemma GcIgnoresNonBases(s: string, i: nat, x: string)
    requires i <= |s| && NoBases(x)
    ensures GcContent(s[..i] + x + s[i..]) == GcContent(s)
  {
    NoBasesCountZero(x);
    CountBasesConcat(s[..i], x);
    CountBasesConcat(s[..i] + x, s[i..]);
    CountBasesConcat(s[..i], s[i..]);
    assert s[..i] + s[i..] == s;
  }

  /** A sequence without any base, including the empty one, has ratio 0. */
  lemma GcWithoutBases(s: string)
    requires NoBases(s)
    ensures GcContent(s) == 0.0
  {
    NoBasesCountZero(s);
  }

  /** A sequence with some G or C and no A or T has ratio 1. */
  lemma GcAllStrong(s: string, k: nat)
    requires k < |s| && (ToUpperChar(s[k]) == 'G' || ToUpperChar(s[k]) == 'C')
    requires forall j :: 0 <= j < |s| ==> ToUpperChar(s[j]) != 'A' && ToUpperChar(s[j]) != 'T'
    ensures GcContent(s) == 1.0
  {
    var u := Upper(s);
    CountAbsent(u, 'A');
    CountAbsent(u, 'T');
    CountPresent(u, u[k], k);
  }

  /** The empty sequence has ratio 0. */
  lemma GcOfEmpty()
    ensures GcContent("") == 0.0
  {
    assert Upper("") == "";
  }

  /** "GC" has ratio 1. */
  lemma GcOfGC()
    ensures GcContent("GC") == 1.0
  {
    assert Upper("GC") == "GC";
    assert CountBases("GC") == BaseCounts(0, 0, 1, 1);
  }

  /** "ATAT" has ratio 0. */
  lemma GcOfATAT()
    ensures GcContent("ATAT") == 0.0
  {
    assert Upper("ATAT") == "ATAT";
    assert CountBases("ATAT") == BaseCounts(2, 2, 0, 0);
  }

  /** "ATGC" has ratio one half, and so has "atgcNN". */
  lemma GcOfATGC()
    ensures GcContent("ATGC") == 0.5
    ensures GcContent("atgcNN") == 0.5
  {
    assert Upper("ATGC") == "ATGC";
    assert CountBases("ATGC") == BaseCounts(1, 1, 1, 1);
    assert Upper("atgcNN") == "ATGCNN";
    assert CountBases("atgcNN") == BaseCounts(1, 1, 1, 1);
  }
}
