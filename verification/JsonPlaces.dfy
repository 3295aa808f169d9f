/** What stands where in a text, and where skipping blanks leads. */
module JsonPlaces {
  import opened Json
  import opened JsonSyntax

  lemma StandsConcat(c: seq<byte>, at: nat, s: seq<byte>, t: seq<byte>)
    requires Stands(c, at, s + t)
    ensures Stands(c, at, s) && Stands(c, at + |s|, t)
  {
    forall i: nat | i < |t| ensures c[at + |s| + i] == Nth(t, i) {
      assert Nth(s + t, |s| + i) == t[i];
    }
    forall i: nat | i < |s| ensures c[at + i] == Nth(s, i) {
      assert Nth(s + t, i) == s[i];
    }
  }

  lemma StandsJoin(c: seq<byte>, at: nat, s: seq<byte>, t: seq<byte>)
    requires Stands(c, at, s) && Stands(c, at + |s|, t)
    ensures Stands(c, at, s + t)
  {
    forall i: nat | i < |s + t| ensures c[at + i] == Nth(s + t, i) {
      if i < |s| {
        assert Nth(s, i) == s[i];
      } else {
        assert Nth(t, i - |s|) == t[i - |s|];
      }
    }
  }

  lemma ByteAt(c: seq<byte>, at: nat, s: seq<byte>, i: nat)
    requires Stands(c, at, s) && i < |s|
    ensures c[at + i] == s[i]
  {
    assert Nth(s, i) == s[i];
  }

  lemma SliceStands(c: seq<byte>, at: nat, to: nat)
    requires at <= to <= |c|
    ensures Stands(c, at, c[at..to])
  {
    StandsSlice(c, at, c[at..to]);
  }

  lemma StandsEmpty(c: seq<byte>, at: nat)
    requires at <= |c|
    ensures Stands(c, at, [])
  {
  }

  lemma OneStands(c: seq<byte>, at: nat, b: byte)
    requires at < |c| && c[at] == b
    ensures Stands(c, at, [b])
  {
    assert forall i: nat :: i < 1 ==> Nth([b], i) == b;
  }

  lemma {:induction false} Skips(c: seq<byte>, p: nat, q: nat)
    requires IsText(c) && p <= q < |c| && (c[q] > 32 || q == |c| - 1)
    requires forall i :: p <= i < q ==> c[i] <= 32
    ensures Skip(c, p) == q
    decreases q - p
  {
    if p < q {
      Skips(c, p + 1, q);
    }
  }

  /** Only blanks are skipped, and no blank is left but the terminator. */
  lemma {:induction false} Skipped(c: seq<byte>, p: nat)
    requires IsText(c) && p < |c|
    ensures forall i :: p <= i < Skip(c, p) ==> c[i] <= 32
    ensures c[Skip(c, p)] > 32 || Skip(c, p) == |c| - 1
    decreases |c| - p
  {
    if p + 1 < |c| && c[p] <= 32 {
      Skipped(c, p + 1);
    }
  }
}
