/** The `ranks.txt` file that `deconv` writes (lines 175-179 of
    `scripts/.ipynb_checkpoints/algorithm-checkpoint.py`) and `analyze_rank_differences`
    reads back. */
module RanksFile {
  /** The three numbers of one run: `final_rank - initial_rank` is the rank difference. */
  datatype RankRecord = RankRecord(initial: int, final: int, diff: int)

  function DigitChar(k: nat): (c: char)
    requires k < 10
    ensures '0' <= c <= '9'
  {
    "0123456789"[k]
  }

  function DigitValue(c: char): nat
    requires '0' <= c <= '9'
  {
    (c as int - '0' as int) as nat
  }

  lemma DigitRoundTrip(k: nat)
    requires k < 10
    ensures DigitValue(DigitChar(k)) == k
  {
    assert "0123456789"[k] as int - '0' as int == k;
  }

  /** Python's `str` of a non-negative int: decimal digits, most significant first. */
  function NatToString(k: nat): (s: string)
    ensures |s| >= 1 && forall j :: 0 <= j < |s| ==> '0' <= s[j] <= '9'
  {
    if k < 10 then [DigitChar(k)] else NatToString(k / 10) + [DigitChar(k % 10)]
  }

  /** Python's `str` of an int, with a leading '-' for negatives. */
  function IntToString(i: int): (s: string)
    ensures |s| >= 1 && '0' <= s[|s| - 1] <= '9'
    ensures forall j :: 0 <= j < |s| ==> '0' <= s[j] <= '9' || (j == 0 && s[j] == '-')
    ensures s[0] == '-' <==> i < 0
  {
    if i < 0 then "-" + NatToString(-i) else NatToString(i)
  }

  /** One `file.write(f"{prefix}{v}\n")`. */
  function WriteLine(prefix: string, v: int): string {
    prefix + IntToString(v) + "\n"
  }

  /** The three lines of `ranks.txt`, in the order they are written. */
  function FormatRanks(r: RankRecord): string {
    WriteLine("Initial rank: ", r.initial) + WriteLine("Final rank: ", r.final)
    + WriteLine("Rank diff: ", r.diff)
  }
}
