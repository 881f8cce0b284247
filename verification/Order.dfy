/** The order texts sort in, here and in the database: by the first character that differs, or the shorter first. */
module Orders {

  predicate Below(a: string, b: string) {
    if |b| == 0 then false
    else if |a| == 0 then true
    else a[0] < b[0] || (a[0] == b[0] && Below(a[1..], b[1..]))
  }

  /** a and b agree up to i, and there a ends or has the smaller character. */
  predicate PartsAt(a: string, b: string, i: nat) {
    i <= |a| && i < |b| && a[..i] == b[..i] && (i == |a| || a[i] < b[i])
  }

  lemma {:induction false} BelowMeans(a: string, b: string)
    ensures Below(a, b) <==> exists i: nat :: PartsAt(a, b, i)
  {
    if |a| == 0 {
      assert |b| > 0 ==> PartsAt(a, b, 0);
    } else if |b| > 0 {
      BelowMeans(a[1..], b[1..]);
      if a[0] < b[0] {
        assert PartsAt(a, b, 0);
      } else if a[0] == b[0] && Below(a[1..], b[1..]) {
        var i: nat :| PartsAt(a[1..], b[1..], i);
        assert a[..i + 1] == [a[0]] + a[1..][..i] && b[..i + 1] == [b[0]] + b[1..][..i];
        assert PartsAt(a, b, i + 1);
      }
      forall i: nat | PartsAt(a, b, i) ensures Below(a, b) {
        if i > 0 {
          assert a[0] == a[..i][0] == b[..i][0] == b[0];
          assert a[1..][..i - 1] == a[..i][1..] && b[1..][..i - 1] == b[..i][1..];
          assert PartsAt(a[1..], b[1..], i - 1);
        }
      }
    }
  }

  lemma {:induction false} BelowIsTotal(a: string, b: string)
    ensures Below(a, b) || a == b || Below(b, a)
    ensures !(Below(a, b) && Below(b, a)) && !Below(a, a)
  {
    if |a| > 0 && |b| > 0 {
      BelowIsTotal(a[1..], b[1..]);
      BelowIsTotal(a[1..], a[1..]);
      assert a == [a[0]] + a[1..] && b == [b[0]] + b[1..];
    } else if |a| > 0 {
      BelowIsTotal(a[1..], a[1..]);
    }
  }

  lemma {:induction false} BelowIsTransitive(a: string, b: string, c: string)
    requires Below(a, b) && Below(b, c)
    ensures Below(a, c)
  {
    if |a| > 0 && a[0] == b[0] == c[0] {
      BelowIsTransitive(a[1..], b[1..], c[1..]);
    }
  }
}
