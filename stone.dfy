/** Stone colours and their negation (the `Stone` enum and `Neg for Stone`). */
module Stones {
  datatype Stone = White | Black
  {
    /** The opposing colour: used to flip the turn and to recognise the opponent's stones. */
    function Neg(): (r: Stone)
      ensures r != this
      ensures r.Black? <==> this.White?
    {
      match this
      case White => Black
      case Black => White
    }
  }

  /** Negating twice gives the colour back. */
  lemma NegInvolutive(c: Stone)
    ensures c.Neg().Neg() == c
    ensures c.Neg() != c
  {
  }
}
