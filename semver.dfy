/** Version precedence as used by the install check: a version is the already-parsed
    (major, minor, patch) triple, and precedence is the one of section 11 of Semantic
    Versioning 2.0.0 restricted to normal versions (compare the three numbers from left
    to right; the first difference decides). */
module Semver {

  datatype Version = Version(major: nat, minor: nat, patch: nat)

  /** The identifiers of a version, in the order precedence looks at them. */
  function Parts(v: Version): (r: seq<nat>)
    ensures |r| == 3 && r[0] == v.major && r[1] == v.minor && r[2] == v.patch
  {
    [v.major, v.minor, v.patch]
  }

  /** Lexicographic "strictly less" on sequences of numeric identifiers:
      the first position where the two differ decides. */
  predicate LexLess(a: seq<nat>, b: seq<nat>)
    decreases |a|
  {
    |b| > 0 &&
    (|a| == 0 || a[0] < b[0] || (a[0] == b[0] && LexLess(a[1..], b[1..])))
  }

  /** `a` has lower precedence than `b`. */
  predicate Precedes(a: Version, b: Version) {
    LexLess(Parts(a), Parts(b))
  }

  lemma {:induction false} LexLessIrreflexive(a: seq<nat>)
    ensures !LexLess(a, a)
  {
    if |a| > 0 {
      LexLessIrreflexive(a[1..]);
    }
  }

  lemma {:induction false} LexLessTransitive(a: seq<nat>, b: seq<nat>, c: seq<nat>)
    requires LexLess(a, b) && LexLess(b, c)
    ensures LexLess(a, c)
  {
    if |a| > 0 && a[0] == b[0] && b[0] == c[0] {
      LexLessTransitive(a[1..], b[1..], c[1..]);
    }
  }

  /** On sequences of one length exactly one of less, equal, greater holds. */
  lemma {:induction false} LexLessTrichotomy(a: seq<nat>, b: seq<nat>)
    requires |a| == |b|
    ensures LexLess(a, b) || a == b || LexLess(b, a)
    ensures !(LexLess(a, b) && LexLess(b, a))
  {
    if |a| > 0 {
      LexLessTrichotomy(a[1..], b[1..]);
      if a[0] == b[0] && a[1..] == b[1..] {
        assert a == [a[0]] + a[1..] && b == [b[0]] + b[1..];
      }
    }
  }

  /** Exactly one of: `a` precedes `b`, they are equal, `b` precedes `a`. */
  lemma PrecedenceTotal(a: Version, b: Version)
    ensures Precedes(a, b) || a == b || Precedes(b, a)
    ensures !(Precedes(a, b) && Precedes(b, a))
    ensures !Precedes(a, a)
  {
    LexLessTrichotomy(Parts(a), Parts(b));
    LexLessIrreflexive(Parts(a));
    if Parts(a) == Parts(b) {
      assert a.major == Parts(a)[0] == Parts(b)[0] == b.major;
      assert a.minor == Parts(a)[1] == Parts(b)[1] == b.minor;
      assert a.patch == Parts(a)[2] == Parts(b)[2] == b.patch;
    }
  }

  lemma PrecedenceTransitive(a: Version, b: Version, c: Version)
    requires Precedes(a, b) && Precedes(b, c)
    ensures Precedes(a, c)
  {
    LexLessTransitive(Parts(a), Parts(b), Parts(c));
  }

  /** Precedence spelled out on the three fields. */
  lemma PrecedesFields(a: Version, b: Version)
    ensures Precedes(a, b) <==>
      a.major < b.major ||
      (a.major == b.major && (a.minor < b.minor || (a.minor == b.minor && a.patch < b.patch)))
  {
    var pa, pb := Parts(a), Parts(b);
    assert pa[1..] == [a.minor, a.patch] && pb[1..] == [b.minor, b.patch];
    assert pa[1..][1..] == [a.patch] && pb[1..][1..] == [b.patch];
    assert pa[1..][1..][1..] == [] && pb[1..][1..][1..] == [];
    assert LexLess(pa[1..][1..], pb[1..][1..]) <==> a.patch < b.patch;
    assert LexLess(pa[1..], pb[1..]) <==>
      a.minor < b.minor || (a.minor == b.minor && a.patch < b.patch);
  }

  /** Comparison of one numeric identifier: -1, 0 or 1. */
  function CompareIdentifiers(x: nat, y: nat): (r: int)
    ensures r == -1 || r == 0 || r == 1
    ensures (r < 0 <==> x < y) && (r == 0 <==> x == y)
  {
    if x < y then -1 else if x > y then 1 else 0
  }

  /** The library comparison `compare(a, b)`: 1 when `a` is newer, -1 when `b` is newer,
      0 when they are the same version. */
  function Compare(a: Version, b: Version): (r: int)
    ensures r == -1 || r == 0 || r == 1
    ensures r == 1 <==> Precedes(b, a)
    ensures r == -1 <==> Precedes(a, b)
    ensures r == 0 <==> a == b
  {
    PrecedesFields(a, b);
    PrecedesFields(b, a);
    var c := CompareIdentifiers(a.major, b.major);
    if c != 0 then c
    else
      var d := CompareIdentifiers(a.minor, b.minor);
      if d != 0 then d
      else CompareIdentifiers(a.patch, b.patch)
  }

  /** Swapping the arguments negates the answer. */
  lemma CompareAntisymmetric(a: Version, b: Version)
    ensures Compare(a, b) == -Compare(b, a)
  {
    PrecedenceTotal(a, b);
  }
}
