/** The one piece of logic in the Swing front end: the separator rules drawn
    around headers, footers and sections. */
module StreamApiGui {
  import opened JavaTypes

  /** createSeparatorLine(character, length): a StringBuilder that a counted loop
      appends `character` to, `length` times. A length of 0 or less leaves the
      loop body unrun and gives the empty string. */
  method CreateSeparatorLine(character: char, length: Int32) returns (line: string)
    ensures |line| == if length > 0 then length else 0
    ensures forall i :: 0 <= i < |line| ==> line[i] == character
    ensures length <= 0 ==> line == ""
  {
    var sb: string := "";
    var i: Int32 := 0;
    while i < length
      invariant 0 <= i <= (if length > 0 then length else 0)
      invariant |sb| == i
      invariant forall k :: 0 <= k < i ==> sb[k] == character
    {
      sb := sb + [character];
      i := i + 1;
    }
    line := sb;
  }

  /** The rule printed above and below headers and footers: 80 '=' characters. */
  method HeaderRule() returns (rule: string)
    ensures |rule| == 80
    ensures forall i :: 0 <= i < |rule| ==> rule[i] == '='
  {
    rule := CreateSeparatorLine('=', 80);
  }

  /** The rule printed around section names: 80 '-' characters. */
  method SectionRule() returns (rule: string)
    ensures |rule| == 80
    ensures forall i :: 0 <= i < |rule| ==> rule[i] == '-'
  {
    rule := CreateSeparatorLine('-', 80);
  }
}
