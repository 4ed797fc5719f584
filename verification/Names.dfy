/** Names of grammar symbols and the order `std::string` puts on them. */
module Names {

  datatype Option<+T> = None | Some(value: T)

  type Name = string

  /** `std::string::operator<`: lexicographic, a proper prefix comes first. */
  predicate Less(a: Name, b: Name)
  {
    b != [] && (a == [] || a[0] < b[0] || (a[0] == b[0] && Less(a[1..], b[1..])))
  }

  /** `i` is the first position at which the names differ, or where the shorter one ends. */
  predicate DifferAt(a: Name, b: Name, i: nat)
  {
    i <= |a| && i < |b| && a[..i] == b[..i] && (i == |a| || a[i] < b[i])
  }

  lemma {:induction false} LessMeaning(a: Name, b: Name)
    ensures Less(a, b) <==> exists i: nat :: DifferAt(a, b, i)
  {
    if a != [] && b != [] {
      LessMeaning(a[1..], b[1..]);
      if i: nat :| DifferAt(a, b, i) {
        if i > 0 {
          assert a[0] == a[..i][0] && b[0] == b[..i][0];
          assert a[1..][..i - 1] == a[..i][1..] && b[1..][..i - 1] == b[..i][1..];
          assert DifferAt(a[1..], b[1..], i - 1);
        }
      }
      if Less(a, b) && a[0] == b[0] {
        var i: nat :| DifferAt(a[1..], b[1..], i);
        assert a[..i + 1] == [a[0]] + a[1..][..i] && b[..i + 1] == [b[0]] + b[1..][..i];
        assert DifferAt(a, b, i + 1);
      }
      if a[0] < b[0] { assert DifferAt(a, b, 0); }
    } else if a == [] && b != [] {
      assert DifferAt(a, b, 0);
    }
  }

  lemma {:induction false} LessTransitive(a: Name, b: Name, c: Name)
    requires Less(a, b) && Less(b, c)
    ensures Less(a, c)
  {
    if a != [] && a[0] == b[0] && b[0] == c[0] {
      LessTransitive(a[1..], b[1..], c[1..]);
    }
  }

  /** Exactly one of a < b, a == b, b < a: two names that `std::map` cannot tell apart are equal. */
  lemma {:induction false} LessTrichotomy(a: Name, b: Name)
    ensures Less(a, b) || a == b || Less(b, a)
    ensures !(Less(a, b) && Less(b, a)) && !Less(a, a)
  {
    if a != [] {
      LessTrichotomy(a[1..], a[1..]);
      if b != [] {
        LessTrichotomy(a[1..], b[1..]);
        if a[0] == b[0] && a[1..] == b[1..] {
          assert a == [a[0]] + a[1..] && b == [b[0]] + b[1..];
        }
      }
    }
  }
}
