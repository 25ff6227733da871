/// The three per-token labels written by the preprocessing script.
module Labels {

  /** One tag per query token. */
  datatype Label = Neither | Include | Exclude

  /** The literal strings the script writes into its output lists: the first is
      capitalised, the other two are lower-case. */
  function Spelling(l: Label): (r: string)
    ensures |r| == 7
    ensures ('A' <= r[0] <= 'Z') == (l == Neither)
  {
    match l
    case Neither => "Neither"
    case Include => "include"
    case Exclude => "exclude"
  }

  /** Distinct labels are written as distinct strings, so the output can be read back. */
  lemma SpellingInjective(a: Label, b: Label)
    ensures Spelling(a) == Spelling(b) <==> a == b
  {
    if a != b {
      assert Spelling(a)[1] != Spelling(b)[1] || Spelling(a)[0] != Spelling(b)[0];
    }
  }
}
