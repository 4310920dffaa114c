/**
 * The command-line checks made at the top level before any hardware
 * command: argv[1] is the target temperature, argv[2] and argv[3] the
 * window size in pixels.
 */
module Arguments {
  import opened PyStr

  /** The hottest target accepted. */
  const MaxTarget: int := 85

  /**
   * How the checks end: the target to regulate to, exit(1) after the usage
   * text, exit(1) because the target is too high, or an IndexError because
   * argv[2] or argv[3] is missing.
   */
  datatype ArgCheck = Accepted(target: nat) | Usage | TooHigh(target: nat) | MissingArgument

  /** Lines 373-401 in order: only len(argv) < 2 is guarded; argv[2] and argv[3] are indexed unguarded. */
  function CheckArgs(argv: seq<string>): (r: ArgCheck)
    ensures r.Accepted? ==> r.target <= MaxTarget
    ensures r.TooHigh? ==> r.target > MaxTarget
  {
    if |argv| < 2 then Usage
    else if !IsDigits(argv[1]) then Usage
    else
      var target := DigitsValue(argv[1]);
      if |argv| < 3 then MissingArgument
      else if !IsDigits(argv[2]) then Usage
      else if |argv| < 4 then MissingArgument
      else if !IsDigits(argv[3]) then Usage
      else if target > MaxTarget then TooHigh(target)
      else Accepted(target)
  }

  /** The arguments are accepted exactly when there are at least three, all decimal, the first at most 85. */
  lemma AcceptedIff(argv: seq<string>, t: nat)
    ensures CheckArgs(argv) == Accepted(t)
            <==> |argv| >= 4 && IsDigits(argv[1]) && IsDigits(argv[2]) && IsDigits(argv[3])
                 && t == DigitsValue(argv[1]) && t <= MaxTarget
  {
  }

  /** Missing window sizes crash rather than print the usage text, once the target itself is valid. */
  lemma MissingArgumentIff(argv: seq<string>)
    ensures CheckArgs(argv) == MissingArgument
            <==> |argv| >= 2 && IsDigits(argv[1])
                 && (|argv| == 2 || (|argv| == 3 && IsDigits(argv[2])))
  {
  }

  /** The target is read as the number its digits spell. */
  lemma TargetIsDecimal(name: string, n: nat, width: nat, height: nat)
    requires n <= MaxTarget
    ensures CheckArgs([name, Decimal(n), Decimal(width), Decimal(height)]) == Accepted(n)
  {
    DecimalValue(n);
  }

  /** isdigit accepts "0", so a target of 0 degrees is accepted. */
  lemma ZeroTargetAccepted()
    ensures CheckArgs(["gpu_d_0.1n.py", "0", "475", "340"]) == Accepted(0)
  {
    assert DigitsValue("0") == 0;
    assert IsDigits("475") && IsDigits("340");
  }

  /** A target of 86 is rejected, 85 accepted. */
  lemma TargetLimit()
    ensures CheckArgs(["gpu_d_0.1n.py", "86", "475", "340"]) == TooHigh(86)
    ensures CheckArgs(["gpu_d_0.1n.py", "85", "475", "340"]) == Accepted(85)
  {
    assert DigitsValue("86") == 86 && DigitsValue("85") == 85;
    assert IsDigits("475") && IsDigits("340");
  }

  /** A signed target such as "-5" fails isdigit and gets the usage text. */
  lemma SignedTargetRejected()
    ensures CheckArgs(["gpu_d_0.1n.py", "-5", "475", "340"]) == Usage
  {
    assert !IsDigit('-');
  }
}
