/** The rule-table builder: a Wolfram code turned into a lookup table indexed by
    neighbourhood codes. */
module RuleTable {

  /** The module-level builder. It is a placeholder: whatever the code, the table
      has one entry per neighbourhood state and every entry is the quiescent state 0. */
  function LookupTableFromWolframCode(numNbhdStates: nat, wolframCode: int): (table: seq<int>)
    ensures |table| == numNbhdStates
    ensures forall x :: 0 <= x < |table| ==> table[x] == 0
  {
    seq(numNbhdStates, _ => 0)
  }

  /** Because the builder is a placeholder, every code yields the same table: all
      rules in use behave as the quiescent rule. */
  lemma LookupTableIgnoresCode(numNbhdStates: nat, code1: int, code2: int)
    ensures LookupTableFromWolframCode(numNbhdStates, code1) == LookupTableFromWolframCode(numNbhdStates, code2)
  {
  }
}
