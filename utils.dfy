/** The percentage arithmetic shared by the local pipeline's report. */
module Utils {

  /** Remaining-forest and deforestation percentages, in that order. */
  datatype Percentages = Percentages(remaining: real, loss: real)

  /** Percent of past forest that remains and percent that was lost. A
      baseline of no past forest (or a non-positive one) gives (0, 0)
      instead of dividing by zero; a gain shows as a negative loss. */
  function PercentFromAreas(areaPastHa: real, areaPresentHa: real): (p: Percentages)
    ensures areaPastHa <= 0.0 ==> p == Percentages(0.0, 0.0)
    ensures areaPastHa > 0.0 ==> p.remaining * areaPastHa == areaPresentHa * 100.0
    ensures areaPastHa > 0.0 ==> p.loss * areaPastHa == (areaPastHa - areaPresentHa) * 100.0
  {
    if areaPastHa <= 0.0 then Percentages(0.0, 0.0)
    else
      var remaining := (areaPresentHa / areaPastHa) * 100.0;
      var loss := ((areaPastHa - areaPresentHa) / areaPastHa) * 100.0;
      Percentages(remaining, loss)
  }

  /** With a positive baseline the two percentages always add up to 100. */
  lemma PercentagesSumTo100(past: real, present: real)
    requires past > 0.0
    ensures PercentFromAreas(past, present).remaining + PercentFromAreas(past, present).loss == 100.0
  {
  }

  /** No change gives (100, 0); a total loss gives (0, 100). */
  lemma PercentagesOfExtremes(past: real)
    requires past > 0.0
    ensures PercentFromAreas(past, past) == Percentages(100.0, 0.0)
    ensures PercentFromAreas(past, 0.0) == Percentages(0.0, 100.0)
  {
  }

  /** Gains are not clamped: the loss is negative exactly when the present
      area exceeds the past one, zero exactly when they are equal. */
  lemma LossSign(past: real, present: real)
    requires past > 0.0
    ensures PercentFromAreas(past, present).loss < 0.0 <==> present > past
    ensures PercentFromAreas(past, present).loss == 0.0 <==> present == past
  {
  }

  /** When the forest did not grow, both percentages lie in [0, 100]. */
  lemma PercentagesBounded(past: real, present: real)
    requires past > 0.0 && 0.0 <= present <= past
    ensures 0.0 <= PercentFromAreas(past, present).remaining <= 100.0
    ensures 0.0 <= PercentFromAreas(past, present).loss <= 100.0
  {
  }

  /** A zero baseline, then a positive one of 100 ha going to 100 ha and to 50 ha. */
  lemma PercentagesExamples()
    ensures PercentFromAreas(0.0, 42.0) == Percentages(0.0, 0.0)
    ensures PercentFromAreas(100.0, 100.0) == Percentages(100.0, 0.0)
    ensures PercentFromAreas(100.0, 50.0) == Percentages(50.0, 50.0)
  {
  }
}
