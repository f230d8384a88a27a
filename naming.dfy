/**
 * Output naming: the file selected at 0-based position i is written to
 * `text{i+1}.txt`, whatever the input file was called.
 */
module Naming {
  import opened Wrappers
  import opened Text
  import opened Paths

  const PREFIX: string := "text"
  const SUFFIX: string := ".txt"

  /** `f'text{i+1}.txt'`. */
  function OutputName(i: nat): string
  {
    PREFIX + Decimal(i + 1) + SUFFIX
  }

  /**
   * The inverse of `OutputName`: the 0-based index a name of the form
   * `text<n>.txt` stands for, with `<n>` written as `str` writes a
   * positive number; `None` for every other name.
   */
  function ParseOutputName(s: string): Option<nat>
  {
    if |s| >= |PREFIX| + |SUFFIX| && s[..|PREFIX|] == PREFIX && s[|s| - |SUFFIX|..] == SUFFIX then
      var digits := s[|PREFIX|..|s| - |SUFFIX|];
      if IsCanonicalDecimal(digits) && DecimalValue(digits) >= 1 then Some(DecimalValue(digits) - 1)
      else None
    else None
  }

  /** Every output name reads back as the index it was made from. */
  lemma ParseInvertsOutputName(i: nat)
    ensures ParseOutputName(OutputName(i)) == Some(i)
  {
    var d := Decimal(i + 1);
    var s := OutputName(i);
    assert s[..|PREFIX|] == PREFIX;
    assert s[|s| - |SUFFIX|..] == SUFFIX;
    assert s[|PREFIX|..|s| - |SUFFIX|] == d;
    DecimalValueOfDecimal(i + 1);
  }

  /** A name that reads back as index i is exactly the output name of i. */
  lemma OutputNameInvertsParse(s: string, i: nat)
    requires ParseOutputName(s) == Some(i)
    ensures OutputName(i) == s
  {
    var digits := s[|PREFIX|..|s| - |SUFFIX|];
    DecimalOfDecimalValue(digits);
    assert s == s[..|PREFIX|] + digits + s[|s| - |SUFFIX|..];
  }

  /** Different positions get different output names. */
  lemma OutputNameInjective(i: nat, j: nat)
    requires OutputName(i) == OutputName(j)
    ensures i == j
  {
    ParseInvertsOutputName(i);
    ParseInvertsOutputName(j);
  }

  /**
   * The names used for a batch of n files are exactly the names that read
   * back as an index below n: `text1.txt` to `text{n}.txt`, with no gap.
   */
  lemma OutputNamesOfBatch(n: nat, s: string)
    ensures (exists i :: 0 <= i < n && OutputName(i) == s)
        <==> (ParseOutputName(s).Some? && ParseOutputName(s).value < n)
  {
    if exists i :: 0 <= i < n && OutputName(i) == s {
      var i :| 0 <= i < n && OutputName(i) == s;
      ParseInvertsOutputName(i);
    }
    if ParseOutputName(s).Some? && ParseOutputName(s).value < n {
      OutputNameInvertsParse(s, ParseOutputName(s).value);
    }
  }

  /** The output path of position i in directory dir. */
  function OutputPath(dir: string, i: nat): string
  {
    Join(dir, OutputName(i))
  }

  /** No two positions of one run share an output path. */
  lemma OutputPathInjective(dir: string, i: nat, j: nat)
    requires OutputPath(dir, i) == OutputPath(dir, j)
    ensures i == j
  {
    assert OutputName(i)[0] == 't' && OutputName(j)[0] == 't';
    JoinInjective(dir, OutputName(i), OutputName(j));
    OutputNameInjective(i, j);
  }
}
