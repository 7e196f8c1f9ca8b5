/** The id an install prompt offers (src/cli/main.rs, `instance_default`), against the daemon's list. */
module InstanceIds {
  import opened Common
  import Decimal

  const ID_LIMIT: nat := 64

  /** Length in UTF-8 bytes. */
  function ByteLength(s: string): nat {
    if s == "" then 0
    else
      var u := s[0] as int;
      (if u < 0x80 then 1 else if u < 0x800 then 2 else if u < 0x1_0000 then 3 else 4) + ByteLength(s[1..])
  }

  /** The four lengths of an encoded character, at both ends of each range. */
  lemma ByteLengthExample()
    ensures ByteLength("\U{0}") == ByteLength("\U{7F}") == 1
    ensures ByteLength("\U{80}") == ByteLength("\U{7FF}") == 2
    ensures ByteLength("\U{800}") == ByteLength("\U{FFFF}") == 3
    ensures ByteLength("\U{10000}") == ByteLength("\U{10FFFF}") == 4
  {
  }

  lemma {:induction false} ByteLengthAppend(a: string, b: string)
    ensures ByteLength(a + b) == ByteLength(a) + ByteLength(b)
  {
    if a == "" {
      assert a + b == b;
    } else {
      assert (a + b)[1..] == a[1..] + b;
      ByteLengthAppend(a[1..], b);
    }
  }

  lemma {:induction false} AsciiByteLength(s: string)
    requires forall i | 0 <= i < |s| :: Decimal.IsDigit(s[i])
    ensures ByteLength(s) == |s|
  {
    if s != "" {
      AsciiByteLength(s[1..]);
    }
  }

  function Candidate(base: string, n: nat): string {
    base + "-" + Decimal.Show(n)
  }

  /** `gitea` taken leads to `gitea-2`, and from nine more taken names to `gitea-11`. */
  lemma CandidateExample()
    ensures Candidate("gitea", 2) == "gitea-2" && Candidate("gitea", 11) == "gitea-11"
  {
    assert Decimal.Show(11) == "11";
  }

  predicate Fits(id: string) {
    ByteLength(id) <= ID_LIMIT
  }

  lemma CandidateInjective(base: string, m: nat, n: nat)
    requires Candidate(base, m) == Candidate(base, n)
    ensures m == n
  {
    assert Candidate(base, m)[|base| + 1..] == Decimal.Show(m);
    assert Candidate(base, n)[|base| + 1..] == Decimal.Show(n);
    Decimal.ShowInjective(m, n);
  }

  /** Once a candidate is too long, so is every later one. */
  lemma LengthGrows(base: string, m: nat, n: nat)
    requires m <= n && Fits(Candidate(base, n))
    ensures Fits(Candidate(base, m))
  {
    forall k
      ensures ByteLength(Candidate(base, k)) == ByteLength(base + "-") + |Decimal.Show(k)|
    {
      ByteLengthAppend(base + "-", Decimal.Show(k));
      AsciiByteLength(Decimal.Show(k));
    }
    Decimal.ShowLengthGrows(m, n);
  }

  /** `base-n` for the least free n from 2 on. */
  ghost predicate LeastFree(base: string, taken: set<string>, n: nat) {
    && n >= 2 && Candidate(base, n) !in taken
    && forall m | 2 <= m < n :: Candidate(base, m) in taken
  }

  lemma TakenCandidates(base: string, taken: set<string>, n: nat)
    requires n >= 2 && forall m | 2 <= m < n :: Candidate(base, m) in taken
    ensures n - 2 <= |taken|
  {
    var tried: set<string> := {};
    for k := 2 to n
      invariant tried <= taken && |tried| == k - 2
      invariant forall c | c in tried :: exists m :: 2 <= m < k && c == Candidate(base, m)
    {
      forall m | 2 <= m < k
        ensures Candidate(base, m) != Candidate(base, k)
      {
        if Candidate(base, m) == Candidate(base, k) {
          CandidateInjective(base, m, k);
        }
      }
      tried := tried + {Candidate(base, k)};
    }
    assert taken == tried + (taken - tried);
  }

  /** `base` is taken too, and is no candidate. */
  lemma TakenBesideBase(base: string, taken: set<string>, n: nat)
    requires base in taken && n >= 2 && forall m | 2 <= m < n :: Candidate(base, m) in taken
    ensures n - 2 < |taken|
  {
    assert forall m :: |Candidate(base, m)| > |base|;
    TakenCandidates(base, taken - {base}, n);
    assert |taken - {base}| == |taken| - 1;
  }

  /**
   `base` when it is free; else the least free candidate that fits; else `base`
   again, taken as it is: that happens exactly when every candidate that fits is
   taken. Never more candidates are looked at than there are names taken.
   */
  method InstanceDefault(base: string, taken: set<string>) returns (id: string, ghost looked: nat)
    ensures base !in taken ==> id == base && looked == 0
    ensures base in taken ==>
              if exists n :: n >= 2 && Fits(Candidate(base, n)) && Candidate(base, n) !in taken
              then exists n :: LeastFree(base, taken, n) && Fits(Candidate(base, n)) && id == Candidate(base, n)
              else id == base
    ensures base in taken && base + "-2" !in taken && ByteLength(base + "-2") <= 64 ==> id == base + "-2"
    ensures base in taken && ByteLength(base + "-2") > 64 ==> id == base
    ensures id == base || (id !in taken && ByteLength(id) <= 64 && base + "-" <= id)
    ensures looked <= |taken|
  {
    assert Candidate(base, 2) == base + "-2" by { assert Decimal.Show(2) == "2"; }
    looked := 0;
    if base !in taken {
      return base, looked;
    }
    var n := 2;
    TakenBesideBase(base, taken, n);
    while true
      invariant n >= 2 && looked == n - 2
      invariant forall m | 2 <= m < n :: Candidate(base, m) in taken
      invariant n - 2 < |taken|
      decreases |taken| + 1 - n
    {
      looked := looked + 1;
      var candidate := Candidate(base, n);
      if ByteLength(candidate) > ID_LIMIT {
        forall k | k >= n && Fits(Candidate(base, k))
          ensures false
        {
          LengthGrows(base, n, k);
        }
        break;
      }
      if candidate !in taken {
        assert LeastFree(base, taken, n);
        LengthGrows(base, 2, n);
        return candidate, looked;
      }
      TakenBesideBase(base, taken, n + 1);
      n := n + 1;
    }
    return base, looked;
  }
}
