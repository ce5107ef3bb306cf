/** `check_password_uniqueness`: label each candidate password invalid, already
    used or unique against a shared Bloom filter, adding each unique one. */
module PasswordCheck {
  import opened PyStr
  import opened Bloom

  /** One element of the input list: a string, `None`, or any other non-string
      value (told apart by an identity). */
  datatype Candidate = Str(s: string) | NoneVal | Other(id: int)

  /** The three outcomes the source records as strings. */
  datatype Label =
    | Invalid      // "некоректний пароль": not a string, or empty / whitespace only
    | AlreadyUsed  // "вже використовувався": the filter reports it present
    | Unique       // "унікальний": the filter reports it absent; it is then added

  /** A candidate the loop accepts: a string with a non-whitespace character.
      `not isinstance(c, str) or not c.strip()` is its negation (lemma below). */
  predicate IsValid(c: Candidate) {
    c.Str? && !AllSpace(c.s)
  }

  /** The source's test, `isinstance(c, str)` and a non-empty `c.strip()`, accepts
      exactly the valid candidates. */
  lemma IsValidIff(c: Candidate)
    ensures IsValid(c) <==> c.Str? && Strip(c.s) != []
  {
    if c.Str? {
      StripEmptyIffAllSpace(c.s);
    }
  }

  /** One turn of the loop: the label of `c` and the bits afterwards. */
  function Step(cfg: Config, bits: seq<bv1>, c: Candidate): (out: (Label, seq<bv1>))
    requires cfg.Valid() && |bits| == cfg.size
    ensures |out.1| == |bits|
  {
    if !IsValid(c) then (Invalid, bits)
    else
      var ps := Positions(cfg, c.s);
      if AllOnes(bits, ps) then (AlreadyUsed, bits)
      else (Unique, SetAll(bits, ps))
  }

  /** What one turn promises: a candidate is labelled invalid exactly when it is not
      a non-blank string, and a valid one already used exactly when the filter
      reports it present; only a unique candidate changes the bits, and then by
      adding it; afterwards a valid candidate is always reported present. */
  lemma StepSpec(cfg: Config, bits: seq<bv1>, c: Candidate)
    requires cfg.Valid() && |bits| == cfg.size
    ensures Step(cfg, bits, c).0 == Invalid <==> !IsValid(c)
    ensures IsValid(c) ==> (Step(cfg, bits, c).0 == AlreadyUsed <==> AllOnes(bits, Positions(cfg, c.s)))
    ensures Step(cfg, bits, c).0 != Unique ==> Step(cfg, bits, c).1 == bits
    ensures Step(cfg, bits, c).0 == Unique ==> Step(cfg, bits, c).1 == SetAll(bits, Positions(cfg, c.s))
    ensures IsValid(c) ==> AllOnes(Step(cfg, bits, c).1, Positions(cfg, c.s))
  {
    if IsValid(c) {
      SetAllSetsEvery(bits, Positions(cfg, c.s));
    }
  }

  /** One turn never clears a set bit. */
  lemma StepMonotone(cfg: Config, bits: seq<bv1>, c: Candidate, j: int)
    requires cfg.Valid() && |bits| == cfg.size
    requires 0 <= j < |bits| && bits[j] == 1
    ensures Step(cfg, bits, c).1[j] == 1
  {
    if IsValid(c) {
      SetAllMonotone(bits, Positions(cfg, c.s), j);
    }
  }

  /** The bits after the loop has processed the first `k` candidates of `cs`, in order. */
  function BitsAfter(cfg: Config, bits: seq<bv1>, cs: seq<Candidate>, k: nat): (r: seq<bv1>)
    requires cfg.Valid() && |bits| == cfg.size && k <= |cs|
    ensures |r| == |bits|
  {
    if k == 0 then bits
    else Step(cfg, BitsAfter(cfg, bits, cs, k - 1), cs[k - 1]).1
  }

  /** The label the loop gives `cs[i]`, with the bits left by the candidates before it. */
  function LabelAt(cfg: Config, bits: seq<bv1>, cs: seq<Candidate>, i: nat): Label
    requires cfg.Valid() && |bits| == cfg.size && i < |cs|
  {
    Step(cfg, BitsAfter(cfg, bits, cs, i), cs[i]).0
  }

  /** The `results` dict after the loop has processed the first `k` candidates: one
      key per distinct candidate among them. */
  function ResultsAfter(cfg: Config, bits: seq<bv1>, cs: seq<Candidate>, k: nat): (m: map<Candidate, Label>)
    requires cfg.Valid() && |bits| == cfg.size && k <= |cs|
    ensures m.Keys == set c | c in cs[..k]
  {
    if k == 0 then map[]
    else
      assert cs[..k] == cs[..k - 1] + [cs[k - 1]];
      ResultsAfter(cfg, bits, cs, k - 1)[cs[k - 1] := LabelAt(cfg, bits, cs, k - 1)]
  }

  /** The result holds, for each candidate, the label of its LAST occurrence:
      a later entry for an equal key overwrites an earlier one. */
  lemma {:induction false} LastOccurrenceWins(cfg: Config, bits: seq<bv1>, cs: seq<Candidate>, i: nat, k: nat)
    requires cfg.Valid() && |bits| == cfg.size
    requires i < k <= |cs|
    requires forall j :: i < j < k ==> cs[j] != cs[i]
    ensures cs[i] in ResultsAfter(cfg, bits, cs, k)
    ensures ResultsAfter(cfg, bits, cs, k)[cs[i]] == LabelAt(cfg, bits, cs, i)
  {
    if i < k - 1 {
      LastOccurrenceWins(cfg, bits, cs, i, k - 1);
    }
  }

  /** Bits set after the first `i` candidates are still set after the first `k >= i`. */
  lemma {:induction false} BitsAfterMonotone(cfg: Config, bits: seq<bv1>, cs: seq<Candidate>, i: nat, k: nat, p: int)
    requires cfg.Valid() && |bits| == cfg.size
    requires i <= k <= |cs| && 0 <= p < |bits|
    requires BitsAfter(cfg, bits, cs, i)[p] == 1
    ensures BitsAfter(cfg, bits, cs, k)[p] == 1
  {
    if i < k {
      BitsAfterMonotone(cfg, bits, cs, i, k - 1, p);
      StepMonotone(cfg, BitsAfter(cfg, bits, cs, k - 1), cs[k - 1], p);
    }
  }

  /** Once a valid candidate has been processed, every later occurrence of the same
      string is labelled already used: the first one added it (or found it) and
      bits are never cleared. */
  lemma RepeatIsAlreadyUsed(cfg: Config, bits: seq<bv1>, cs: seq<Candidate>, i: nat, k: nat)
    requires cfg.Valid() && |bits| == cfg.size
    requires i < k < |cs| && cs[i] == cs[k] && IsValid(cs[i])
    ensures LabelAt(cfg, bits, cs, k) == AlreadyUsed
  {
    var ps := Positions(cfg, cs[i].s);
    var mid := BitsAfter(cfg, bits, cs, i + 1);
    StepSpec(cfg, BitsAfter(cfg, bits, cs, i), cs[i]);
    assert AllOnes(mid, ps);
    var late := BitsAfter(cfg, bits, cs, k);
    forall t | 0 <= t < |ps| ensures late[ps[t]] == 1 {
      BitsAfterMonotone(cfg, bits, cs, i + 1, k, ps[t]);
    }
  }

  /** A candidate that was reported present before the run is never labelled unique. */
  lemma PresentBeforeNeverUnique(cfg: Config, bits: seq<bv1>, cs: seq<Candidate>, k: nat)
    requires cfg.Valid() && |bits| == cfg.size
    requires k < |cs| && IsValid(cs[k]) && AllOnes(bits, Positions(cfg, cs[k].s))
    ensures LabelAt(cfg, bits, cs, k) == AlreadyUsed
  {
    var ps := Positions(cfg, cs[k].s);
    var late := BitsAfter(cfg, bits, cs, k);
    forall t | 0 <= t < |ps| ensures late[ps[t]] == 1 {
      assert BitsAfter(cfg, bits, cs, 0)[ps[t]] == 1;
      BitsAfterMonotone(cfg, bits, cs, 0, k, ps[t]);
    }
  }

  /** With a one-bit filter, once any valid candidate has been processed, every later
      valid candidate is labelled already used (the total-collision case). */
  lemma SingleBitAllUsed(cfg: Config, bits: seq<bv1>, cs: seq<Candidate>, i: nat, k: nat)
    requires cfg.Valid() && cfg.size == 1 && |bits| == 1
    requires i < k < |cs| && IsValid(cs[i]) && IsValid(cs[k])
    ensures LabelAt(cfg, bits, cs, k) == AlreadyUsed
  {
    var ps := Positions(cfg, cs[i].s);
    var qs := Positions(cfg, cs[k].s);
    if qs != [] {
      var mid := BitsAfter(cfg, bits, cs, i + 1);
      StepSpec(cfg, BitsAfter(cfg, bits, cs, i), cs[i]);
      assert |ps| == |qs| && ps[0] == 0;
      assert mid[0] == 1;
      BitsAfterMonotone(cfg, bits, cs, i + 1, k, 0);
      var late := BitsAfter(cfg, bits, cs, k);
      forall t | 0 <= t < |qs| ensures late[qs[t]] == 1 {
        assert qs[t] == 0;
      }
    }
  }

  /** The body of the loop for one candidate: label it, querying the filter only
      for a valid one and adding it when it is reported absent. */
  method CheckOne(filter: BloomFilter, password: Candidate) returns (verdict: Label)
    requires filter.Valid()
    modifies filter`added, filter.bitArray
    ensures filter.Valid()
    ensures (verdict, filter.bitArray[..]) == Step(filter.Cfg(), old(filter.bitArray[..]), password)
    ensures old(filter.added) <= filter.added
  {
    ghost var before := filter.bitArray[..];
    IsValidIff(password);
    if !password.Str? || Strip(password.s) == [] {
      verdict := Invalid;
    } else if filter.Contains(password.s) {
      verdict := AlreadyUsed;
    } else {
      verdict := Unique;
      filter.Add(password.s);
    }
  }

  /** `check_password_uniqueness(bloom_filter, passwords)`: walk the list once,
      labelling each candidate and adding each unique one to the shared filter.
      The result and the filter's new bits are those of the specification above. */
  method CheckPasswordUniqueness(filter: BloomFilter, passwords: seq<Candidate>)
    returns (results: map<Candidate, Label>)
    requires filter.Valid()
    modifies filter`added, filter.bitArray
    ensures filter.Valid()
    ensures results == ResultsAfter(filter.Cfg(), old(filter.bitArray[..]), passwords, |passwords|)
    ensures filter.bitArray[..] == BitsAfter(filter.Cfg(), old(filter.bitArray[..]), passwords, |passwords|)
    ensures old(filter.added) <= filter.added
  {
    ghost var cfg := filter.Cfg();
    ghost var bits0 := filter.bitArray[..];
    results := map[];
    for i := 0 to |passwords|
      invariant filter.Valid()
      invariant old(filter.added) <= filter.added
      invariant filter.bitArray[..] == BitsAfter(cfg, bits0, passwords, i)
      invariant results == ResultsAfter(cfg, bits0, passwords, i)
    {
      var password := passwords[i];
      var verdict := CheckOne(filter, password);
      results := results[password := verdict];
    }
  }
}
