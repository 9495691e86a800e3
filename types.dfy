/** Machine types and small sequence facts shared by the Sudoku modules. */
module Types {

  /** Rust's `u8`: the cell values of the board. */
  type u8 = x: int | 0 <= x < 256

  /** Rust's `Option<T>`. */
  datatype Option<T> = None | Some(value: T)

  /** No element occurs twice in `s`. */
  predicate NoDup<T(==)>(s: seq<T>) {
    forall a, b | 0 <= a < |s| && 0 <= b < |s| && a != b :: s[a] != s[b]
  }

  /** The elements of `s`, as a set. */
  function Elements<T>(s: seq<T>): set<T> {
    set x | x in s
  }

  /** A duplicate-free sequence has exactly as many distinct elements as positions. */
  lemma {:induction false} NoDupCardinality<T>(s: seq<T>)
    requires NoDup(s)
    ensures |Elements(s)| == |s|
  {
    if s != [] {
      var rest := s[1..];
      assert NoDup(rest) by {
        forall a, b | 0 <= a < |rest| && 0 <= b < |rest| && a != b
          ensures rest[a] != rest[b]
        {
          assert s[a + 1] != s[b + 1];
        }
      }
      NoDupCardinality(rest);
      assert s[0] !in rest by {
        forall a | 0 <= a < |rest| ensures rest[a] != s[0] {
          assert s[a + 1] != s[0];
        }
      }
      assert Elements(s) == Elements(rest) + {s[0]} by {
        forall x ensures x in Elements(s) <==> x in Elements(rest) + {s[0]} {
          if x in s && x != s[0] {
            var k :| 0 <= k < |s| && s[k] == x;
            assert rest[k - 1] == x;
          }
        }
      }
    }
  }

  /**
   * A sequence has at most as many distinct elements as positions, and
   * exactly as many only when no element occurs twice.
   */
  lemma {:induction false} ElementsCardinality<T>(s: seq<T>)
    ensures |Elements(s)| <= |s|
    ensures |Elements(s)| == |s| ==> NoDup(s)
  {
    if s != [] {
      var rest := s[1..];
      ElementsCardinality(rest);
      assert Elements(s) == Elements(rest) + {s[0]} by {
        forall x ensures x in Elements(s) <==> x in Elements(rest) + {s[0]} {
          if x in s && x != s[0] {
            var k :| 0 <= k < |s| && s[k] == x;
            assert rest[k - 1] == x;
          }
        }
      }
      if |Elements(s)| == |s| {
        assert s[0] !in Elements(rest);
        forall a, b | 0 <= a < |s| && 0 <= b < |s| && a != b ensures s[a] != s[b] {
          if a == 0 {
            assert s[b] == rest[b - 1];
          } else if b == 0 {
            assert s[a] == rest[a - 1];
          } else {
            assert rest[a - 1] != rest[b - 1];
          }
        }
      }
    }
  }

  /** A subset is no larger than its superset. */
  lemma {:induction false} SubsetCardinality<T>(a: set<T>, b: set<T>)
    requires a <= b
    ensures |a| <= |b|
  {
    if a != {} {
      var x :| x in a;
      SubsetCardinality(a - {x}, b - {x});
    }
  }

  /** A subset with as many elements as its superset is the superset. */
  lemma SubsetOfSameSize<T>(a: set<T>, b: set<T>)
    requires a <= b && |a| == |b|
    ensures a == b
  {
    if a != b {
      var x :| x in b && x !in a;
      SubsetCardinality(a, b - {x});
    }
  }
}
