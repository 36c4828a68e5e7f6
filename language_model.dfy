/**
 * The probability machinery of the character-level language model: a
 * frequency table is an ordered list of `CharData` entries; the model fills
 * in each entry's probability and cumulative probability in place and draws
 * characters from the table by a cumulative-distribution lookup.
 */
module LanguageModel {
  import opened Wrappers
  import opened JavaInt
  import opened Distribution

  /**
   * One entry of a frequency table: a character, how often it was seen,
   * and its probability `p` and cumulative probability `cp`.
   */
  datatype CharData = CharData(chr: char, count: Int32, p: real, cp: real)

  function Chrs(entries: seq<CharData>): (cs: seq<char>)
    ensures |cs| == |entries| && forall i :: 0 <= i < |entries| ==> cs[i] == entries[i].chr
  {
    seq(|entries|, i requires 0 <= i < |entries| => entries[i].chr)
  }

  function Counts(entries: seq<CharData>): (cs: seq<int>)
    ensures |cs| == |entries| && forall i :: 0 <= i < |entries| ==> cs[i] == entries[i].count
  {
    seq(|entries|, i requires 0 <= i < |entries| => entries[i].count as int)
  }

  function Ps(entries: seq<CharData>): (ps: seq<real>)
    ensures |ps| == |entries| && forall i :: 0 <= i < |entries| ==> ps[i] == entries[i].p
  {
    seq(|entries|, i requires 0 <= i < |entries| => entries[i].p)
  }

  function Cps(entries: seq<CharData>): (cps: seq<real>)
    ensures |cps| == |entries| && forall i :: 0 <= i < |entries| ==> cps[i] == entries[i].cp
  {
    seq(|entries|, i requires 0 <= i < |entries| => entries[i].cp)
  }

  /**
   * The first pass of calculating the probabilities: the counts summed in
   * list order into a Java `int`, which wraps around past 2^31 - 1.
   */
  method TotalCount(probs: array<CharData>) returns (totalChars: Int32)
    ensures totalChars == Wrap(Total(Counts(probs[..])))
  {
    ghost var cs := Counts(probs[..]);
    totalChars := 0;
    var i := 0;
    while i < probs.Length
      invariant 0 <= i <= probs.Length
      invariant totalChars == Wrap(Total(cs[..i]))
    {
      TotalStep(cs, i);
      WrapAdd(Total(cs[..i]), cs[i]);
      totalChars := Wrap(totalChars + probs[i].count);
      i := i + 1;
    }
    assert cs[..probs.Length] == cs;
  }

  /**
   * Sums the counts (TotalCount), then sets each entry's `p` to its count
   * over that total and its `cp` to the running sum of the `p` values so
   * far. Only `p` and `cp` change; an empty list is left as it is.
   */
  method CalculateProbabilities(probs: array<CharData>)
    requires probs.Length > 0 ==> Wrap(Total(Counts(probs[..]))) != 0
    modifies probs
    ensures Chrs(probs[..]) == Chrs(old(probs[..])) && Counts(probs[..]) == Counts(old(probs[..]))
    ensures Finalized(Counts(probs[..]), Ps(probs[..]), Cps(probs[..]))
  {
    ghost var cs := Counts(probs[..]);
    var totalChars := TotalCount(probs);
    ghost var ps := Shares(cs, totalChars);
    ghost var cps := Cumulative(ps);
    var prevCp := 0.0;
    var i := 0;
    while i < probs.Length
      invariant 0 <= i <= probs.Length
      invariant Chrs(probs[..]) == Chrs(old(probs[..])) && Counts(probs[..]) == cs
      invariant forall k :: 0 <= k < i ==> probs[k].p == ps[k] && probs[k].cp == cps[k]
      invariant prevCp == if i == 0 then 0.0 else cps[i - 1]
    {
      var current := probs[i];
      var p := current.count as real / totalChars as real;
      probs[i] := current.(p := p, cp := prevCp + p);
      prevCp := prevCp + p;
      i := i + 1;
    }
    assert Ps(probs[..]) == ps;
    assert Cps(probs[..]) == cps;
  }

  /**
   * Returns the character of the first entry, in list order, whose `cp`
   * exceeds the draw `r`, and throws when no entry does. Nothing changes.
   */
  method GetRandomChar(probs: array<CharData>, r: real) returns (res: Result<char>)
    ensures match FirstAbove(Cps(probs[..]), r)
      case Some(i) => res == Ok(probs[i].chr)
      case None => res == Thrown(IndexOutOfBoundsException("not suppose to get here"))
    ensures res.Ok? ==> res.value in Chrs(probs[..])
    ensures (Finalized(Counts(probs[..]), Ps(probs[..]), Cps(probs[..])) && probs.Length > 0 &&
             InRange(Total(Counts(probs[..]))) && r < 1.0) ==> res.Ok?
  {
    var i := 0;
    while i < probs.Length
      invariant 0 <= i <= probs.Length
      invariant forall j :: 0 <= j < i ==> probs[j].cp <= r
    {
      var current := probs[i];
      if r < current.cp {
        assert FirstAbove(Cps(probs[..]), r) == Some(i);
        assert current.chr == Chrs(probs[..])[i];
        return Ok(current.chr);
      }
      i := i + 1;
    }
    ghost var entries := probs[..];
    if Finalized(Counts(entries), Ps(entries), Cps(entries)) && entries != [] && InRange(Total(Counts(entries))) && r < 1.0 {
      FinalizedDrawSelects(Counts(entries), Ps(entries), Cps(entries), r);
    }
    return Thrown(IndexOutOfBoundsException("not suppose to get here"));
  }
}
