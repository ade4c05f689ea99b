/** Version identifiers as `packaging.version` parses and orders them, restricted to the
    release segment: an optional `v` followed by dot-separated decimal numbers, compared
    component by component with missing trailing components counting as zero. */
module Versions {
  import opened Wrappers
  import Text

  /** The release numbers of a version, most significant first; never empty. */
  type Release = r: seq<nat> | |r| >= 1 witness [0]

  datatype Version = Version(release: Release)

  datatype Ordering = Less | Same | Greater

  function Flip(o: Ordering): Ordering
  {
    match o
    case Less => Greater
    case Same => Same
    case Greater => Less
  }

  /** The `i`-th release number, zero past the end (`1.2` reads as `1.2.0.0...`). */
  function At(r: seq<nat>, i: nat): nat
  {
    if i < |r| then r[i] else 0
  }

  function CompareRelease(a: seq<nat>, b: seq<nat>): Ordering
    decreases |a| + |b|
  {
    if a == [] && b == [] then Same
    else
      var x, y := At(a, 0), At(b, 0);
      if x < y then Less
      else if x > y then Greater
      else CompareRelease(if a == [] then [] else a[1..], if b == [] then [] else b[1..])
  }

  /** `packaging`'s order on versions: `a` is older than `b` when they agree up to some
      release number and `a` has the smaller one there; they are the same when every
      zero-padded release number agrees. */
  function CompareVersions(a: Version, b: Version): (o: Ordering)
    ensures o == Less <==> exists k: nat :: LessAt(a.release, b.release, k)
    ensures o == Greater <==> exists k: nat :: LessAt(b.release, a.release, k)
    ensures o == Same <==> forall i: nat :: At(a.release, i) == At(b.release, i)
  {
    CompareLess(a.release, b.release);
    CompareLess(b.release, a.release);
    CompareFlip(a.release, b.release);
    CompareSame(a.release, b.release);
    CompareRelease(a.release, b.release)
  }

  /** `a` and `b` agree before position `k` and `a` is smaller at `k`. */
  ghost predicate LessAt(a: seq<nat>, b: seq<nat>, k: nat)
  {
    (forall j: nat :: j < k ==> At(a, j) == At(b, j)) && At(a, k) < At(b, k)
  }

  /** `Less` means lexicographically smaller on the zero-padded release numbers. */
  lemma {:induction false} CompareLess(a: seq<nat>, b: seq<nat>)
    ensures CompareRelease(a, b) == Less <==> exists k: nat :: LessAt(a, b, k)
    decreases |a| + |b|
  {
    if a == [] && b == [] {
      assert forall k: nat :: !LessAt(a, b, k);
    } else {
      var a', b' := if a == [] then [] else a[1..], if b == [] then [] else b[1..];
      if At(a, 0) < At(b, 0) {
        assert LessAt(a, b, 0);
      } else if At(a, 0) > At(b, 0) {
        forall k: nat ensures !LessAt(a, b, k) {
          if k > 0 { assert !(At(a, 0) == At(b, 0)); }
        }
      } else {
        CompareLess(a', b');
        if k: nat :| LessAt(a', b', k) {
          forall j: nat | j < k + 1 ensures At(a, j) == At(b, j) {
            if j > 0 { AtTail(a, j - 1); AtTail(b, j - 1); }
          }
          AtTail(a, k); AtTail(b, k);
          assert LessAt(a, b, k + 1);
        }
        if k: nat :| LessAt(a, b, k) {
          assert k > 0;
          forall j: nat | j < k - 1 ensures At(a', j) == At(b', j) {
            AtTail(a, j); AtTail(b, j);
            assert At(a, j + 1) == At(b, j + 1);
          }
          AtTail(a, k - 1); AtTail(b, k - 1);
          assert LessAt(a', b', k - 1);
        }
      }
    }
  }

  lemma AtTail(r: seq<nat>, i: nat)
    ensures At(if r == [] then [] else r[1..], i) == At(r, i + 1)
  {
  }

  /** Two versions are the same exactly when they agree on every zero-padded release number. */
  lemma {:induction false} CompareSame(a: seq<nat>, b: seq<nat>)
    ensures CompareRelease(a, b) == Same <==> forall i: nat :: At(a, i) == At(b, i)
    decreases |a| + |b|
  {
    if a == [] && b == [] {
    } else {
      var a', b' := if a == [] then [] else a[1..], if b == [] then [] else b[1..];
      if At(a, 0) == At(b, 0) {
        CompareSame(a', b');
        if forall i: nat :: At(a', i) == At(b', i) {
          forall i: nat ensures At(a, i) == At(b, i) {
            if i > 0 { AtTail(a, i - 1); AtTail(b, i - 1); }
          }
        } else {
          var i: nat :| At(a', i) != At(b', i);
          AtTail(a, i); AtTail(b, i);
        }
      }
    }
  }

  /** Swapping the arguments flips the ordering. */
  lemma {:induction false} CompareFlip(a: seq<nat>, b: seq<nat>)
    ensures CompareRelease(b, a) == Flip(CompareRelease(a, b))
    decreases |a| + |b|
  {
    if !(a == [] && b == []) && At(a, 0) == At(b, 0) {
      CompareFlip(if a == [] then [] else a[1..], if b == [] then [] else b[1..]);
    }
  }

  /** The order is transitive. */
  lemma {:induction false} CompareTransitive(a: seq<nat>, b: seq<nat>, c: seq<nat>)
    requires CompareRelease(a, b) == Less && CompareRelease(b, c) == Less
    ensures CompareRelease(a, c) == Less
    decreases |a| + |b| + |c|
  {
    var a', b', c' := if a == [] then [] else a[1..], if b == [] then [] else b[1..], if c == [] then [] else c[1..];
    if At(a, 0) == At(b, 0) == At(c, 0) {
      CompareTransitive(a', b', c');
    }
  }

  /** Every version is the same as itself. */
  lemma {:induction false} CompareReflexive(a: seq<nat>)
    ensures CompareRelease(a, a) == Same
  {
    CompareSame(a, a);
  }

  predicate IsDigit(c: char)
  {
    '0' <= c <= '9'
  }

  predicate AllDigits(s: string)
  {
    forall i :: 0 <= i < |s| ==> IsDigit(s[i])
  }

  /** The value of a string of decimal digits. */
  function DigitsValue(s: string): nat
    requires AllDigits(s)
  {
    if s == [] then 0 else DigitsValue(s[..|s| - 1]) * 10 + (s[|s| - 1] as int - '0' as int)
  }

  /** A release number: one or more decimal digits (leading zeros allowed, `01` is 1). */
  function ParseNumber(s: string): (n: Option<nat>)
    ensures n.Some? <==> s != [] && AllDigits(s)
  {
    if s != [] && AllDigits(s) then Some(DigitsValue(s)) else None
  }

  /** The canonical decimal spelling of a number. */
  function NumberToString(n: nat): (s: string)
    ensures s != [] && AllDigits(s) && '.' !in s
  {
    var d := [('0' as int + n % 10) as char];
    if n < 10 then d else NumberToString(n / 10) + d
  }

  lemma {:induction false} NumberRoundTrip(n: nat)
    ensures ParseNumber(NumberToString(n)) == Some(n)
  {
    var s := NumberToString(n);
    var d := ('0' as int + n % 10) as char;
    assert d as int - '0' as int == n % 10;
    if n >= 10 {
      NumberRoundTrip(n / 10);
      assert s[..|s| - 1] == NumberToString(n / 10);
      assert DigitsValue(s) == (n / 10) * 10 + n % 10;
    } else {
      assert s == [d] && s[..0] == [];
      assert DigitsValue(s) == n;
    }
  }

  function ParseNumbers(parts: seq<string>): (r: Option<seq<nat>>)
    ensures r.Some? <==> forall i :: 0 <= i < |parts| ==> ParseNumber(parts[i]).Some?
    ensures r.Some? ==> |r.value| == |parts|
    ensures r.Some? ==> forall i :: 0 <= i < |parts| ==> r.value[i] == ParseNumber(parts[i]).value
  {
    if parts == [] then Some([])
    else
      match (ParseNumber(parts[0]), ParseNumbers(parts[1..]))
      case (Some(n), Some(ns)) => Some([n] + ns)
      case _ => None
  }

  /** The string without its optional leading `v` or `V`. */
  function Body(s: string): string
  {
    if s != [] && (s[0] == 'v' || s[0] == 'V') then s[1..] else s
  }

  /** Every dot-separated piece after the optional `v` is a non-empty string of digits. */
  predicate WellFormed(s: string)
  {
    var pieces := Text.Split(Body(s), '.');
    forall i :: 0 <= i < |pieces| ==> pieces[i] != [] && AllDigits(pieces[i])
  }

  /** `version.parse`: an optional `v` or `V`, then numbers separated by single dots.
      Anything else is rejected, as `packaging` rejects a string that is not a version. */
  function Parse(s: string): (v: Option<Version>)
    ensures v.Some? ==> s != []
    ensures v.Some? <==> WellFormed(s)
    ensures v.Some? ==> var pieces := Text.Split(Body(s), '.');
      |v.value.release| == |pieces| &&
      forall i :: 0 <= i < |pieces| ==> v.value.release[i] == DigitsValue(pieces[i])
  {
    var pieces := Text.Split(Body(s), '.');
    match ParseNumbers(pieces)
    case Some(numbers) => Some(Version(numbers))
    case None =>
      None
  }

  function FormatNumbers(r: seq<nat>): (parts: seq<string>)
    ensures |parts| == |r|
    ensures forall i :: 0 <= i < |r| ==> parts[i] == NumberToString(r[i])
  {
    if r == [] then [] else [NumberToString(r[0])] + FormatNumbers(r[1..])
  }

  /** The canonical spelling of a version: its release numbers joined by dots. */
  function Format(v: Version): string
  {
    Text.Join(FormatNumbers(v.release), '.')
  }

  lemma {:induction false} ParseNumbersFormat(r: seq<nat>)
    ensures ParseNumbers(FormatNumbers(r)) == Some(r)
  {
    if r != [] {
      var parts := FormatNumbers(r);
      NumberRoundTrip(r[0]);
      ParseNumbersFormat(r[1..]);
      assert parts[1..] == FormatNumbers(r[1..]);
      assert [r[0]] + r[1..] == r;
    }
  }

  /** Parsing the canonical spelling of a version gives the version back. */
  lemma ParseFormat(v: Version)
    ensures Parse(Format(v)) == Some(v)
  {
    var parts := FormatNumbers(v.release);
    Text.SplitJoin(parts, '.');
    ParseNumbersFormat(v.release);
    var s := Format(v);
    assert s[0] == parts[0][0];
  }
}
