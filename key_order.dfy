/**
 * The order on dictionary keys: std::string's operator< on the byte
 * contents (unsigned bytes, a proper prefix sorts first). Bencoding
 * requires dictionary keys to appear sorted by this order.
 */
module KeyOrder {
  import opened BValues

  /** `a` sorts strictly before `b` as raw strings. */
  predicate Less(a: Bytes, b: Bytes)
    decreases |a|
  {
    if |b| == 0 then false
    else if |a| == 0 then true
    else if a[0] != b[0] then a[0] < b[0]
    else Less(a[1..], b[1..])
  }

  /** `a` is a proper prefix of `b`. */
  predicate ProperPrefix(a: Bytes, b: Bytes) {
    |a| < |b| && a == b[..|a|]
  }

  /** `a` and `b` agree before position `i` and `a` has the smaller byte there. */
  predicate DiffersLowerAt(a: Bytes, b: Bytes, i: nat) {
    i < |a| && i < |b| && a[..i] == b[..i] && a[i] < b[i]
  }

  lemma {:induction false} LessIrreflexive(a: Bytes)
    ensures !Less(a, a)
  {
    if |a| > 0 {
      LessIrreflexive(a[1..]);
    }
  }

  lemma {:induction false} LessTransitive(a: Bytes, b: Bytes, c: Bytes)
    requires Less(a, b) && Less(b, c)
    ensures Less(a, c)
    decreases |a|
  {
    if |a| > 0 && a[0] == b[0] && b[0] == c[0] {
      LessTransitive(a[1..], b[1..], c[1..]);
    }
  }

  lemma {:induction false} LessTotal(a: Bytes, b: Bytes)
    ensures a == b || Less(a, b) || Less(b, a)
    decreases |a|
  {
    if |a| > 0 && |b| > 0 && a[0] == b[0] {
      LessTotal(a[1..], b[1..]);
      if a[1..] == b[1..] {
        assert a == [a[0]] + a[1..] && b == [b[0]] + b[1..];
      }
    }
  }

  lemma {:induction false} LessAsymmetric(a: Bytes, b: Bytes)
    requires Less(a, b)
    ensures !Less(b, a)
  {
    if Less(b, a) {
      LessTransitive(a, b, a);
      LessIrreflexive(a);
    }
  }

  /**
   * The comparator's equivalence (neither sorts before the other) is
   * equality of contents: a map ordered by Less keys entries by content.
   */
  lemma {:induction false} EquivalentIffEqual(a: Bytes, b: Bytes)
    ensures (!Less(a, b) && !Less(b, a)) <==> a == b
  {
    LessTotal(a, b);
    LessIrreflexive(a);
  }

  /**
   * Less agrees with the textbook definition of lexicographic order:
   * `a` is a proper prefix of `b`, or the first differing byte is smaller in `a`.
   */
  lemma {:induction false} LessIsLexicographic(a: Bytes, b: Bytes)
    ensures Less(a, b) <==> ProperPrefix(a, b) || exists i: nat :: DiffersLowerAt(a, b, i)
    decreases |a|
  {
    if |a| == 0 || |b| == 0 {
      if |b| == 0 {
        forall i: nat ensures !DiffersLowerAt(a, b, i) { }
      } else {
        forall i: nat ensures !DiffersLowerAt(a, b, i) { }
        assert ProperPrefix(a, b);
      }
    } else if a[0] != b[0] {
      if a[0] < b[0] {
        assert DiffersLowerAt(a, b, 0);
      } else {
        assert !ProperPrefix(a, b) by {
          if |a| < |b| { assert b[..|a|][0] == b[0]; }
        }
        forall i: nat ensures !DiffersLowerAt(a, b, i) {
          if 0 < i < |a| && i < |b| {
            assert a[..i][0] == a[0] && b[..i][0] == b[0];
          }
        }
      }
    } else {
      var a', b' := a[1..], b[1..];
      LessIsLexicographic(a', b');
      if ProperPrefix(a', b') {
        assert a == [a[0]] + a' && b[..|a|] == [b[0]] + b'[..|a'|];
      } else if i: nat :| DiffersLowerAt(a', b', i) {
        assert a[..i + 1] == [a[0]] + a'[..i] && b[..i + 1] == [b[0]] + b'[..i];
        assert DiffersLowerAt(a, b, i + 1);
      }
      if ProperPrefix(a, b) {
        assert a' == a[1..] && b'[..|a'|] == b[..|a|][1..];
        assert ProperPrefix(a', b');
      }
      if i: nat :| DiffersLowerAt(a, b, i) {
        assert i > 0;
        assert a'[..i - 1] == a[..i][1..] && b'[..i - 1] == b[..i][1..];
        assert DiffersLowerAt(a', b', i - 1);
      }
    }
  }
}
