/** The figures of a VAT return as they are printed for filing. */
module VatReturn {
  import opened Wrappers
  import opened Money

  datatype Figures = Figures(outputTax: string, inputTax: string, netVat: string,
                             nhil: string, getfund: string, covidLevy: string, totalTaxPayable: string)

  function Max(a: real, b: real): real {
    if a >= b then a else b
  }

  function NetVat(vatOutput: real, vatInput: real): real {
    Max(vatOutput - vatInput, 0.0)
  }

  function BuildFigures(vatOutput: real, vatInput: real, nhil: real, getfund: real,
                        covidLevy: real, totalTax: real): Figures
  {
    Figures(Fixed2(vatOutput), Fixed2(vatInput), Fixed2(NetVat(vatOutput, vatInput)),
            Fixed2(nhil), Fixed2(getfund), Fixed2(covidLevy), Fixed2(totalTax))
  }

  /** The amount that a printed figure denotes, in pesewas. */
  function Denotes(text: string): Option<int> {
    match ReadFixed2(text)
    case None => None
    case Some(Signed(negative, p)) => var v: int := p; Some(if negative then -v else v)
  }

  /** The text denotes the whole number of pesewas nearest to the amount. */
  predicate IsRounded(text: string, x: real) {
    Denotes(text).Some? && IsNearest(Denotes(text).value, 100.0 * x)
  }

  lemma DenotesPesewas(x: real)
    ensures Denotes(Fixed2(x)) == Some(Pesewas(x))
  {
    PrintedReadsBack(x);
    PesewasSigned(x);
  }

  lemma PesewasSigned(x: real)
    ensures Pesewas(x) == if x < 0.0 then -(Magnitude(x) as int) else Magnitude(x)
  {
    if x < 0.0 {
      RoundNegated(100.0 * -x);
      assert 100.0 * x == -(100.0 * -x);
    }
  }

  /** A figure read back is the amount rounded to pesewas; nothing else is lost. */
  lemma FigureReadsBack(x: real)
    ensures Denotes(Fixed2(x)) == Some(Pesewas(x))
    ensures IsRounded(Fixed2(x), x)
  {
    DenotesPesewas(x);
    RoundIff(100.0 * x, Pesewas(x));
  }

  /** All seven figures denote their own amounts, the net VAT the difference of the two taxes
      or zero where that is negative. */
  lemma FiguresDenote(vatOutput: real, vatInput: real, nhil: real, getfund: real, covidLevy: real, totalTax: real)
    ensures
      var f := BuildFigures(vatOutput, vatInput, nhil, getfund, covidLevy, totalTax);
      && IsRounded(f.outputTax, vatOutput)
      && IsRounded(f.inputTax, vatInput)
      && (vatOutput >= vatInput ==> IsRounded(f.netVat, vatOutput - vatInput))
      && (vatOutput < vatInput ==> Denotes(f.netVat) == Some(0))
      && IsRounded(f.nhil, nhil)
      && IsRounded(f.getfund, getfund)
      && IsRounded(f.covidLevy, covidLevy)
      && IsRounded(f.totalTaxPayable, totalTax)
  {
    FigureReadsBack(vatOutput);
    FigureReadsBack(vatInput);
    FigureReadsBack(NetVat(vatOutput, vatInput));
    FigureReadsBack(nhil);
    FigureReadsBack(getfund);
    FigureReadsBack(covidLevy);
    FigureReadsBack(totalTax);
  }

  /** What the printed net figure would be, were it computed from the printed figures. */
  function Recomputed(vatOutput: real, vatInput: real): int {
    var d := Pesewas(vatOutput) - Pesewas(vatInput);
    if d >= 0 then d else 0
  }

  /** How far rounding has moved the difference of the two figures. */
  function RoundingGap(vatOutput: real, vatInput: real): real {
    (100.0 * vatOutput - Pesewas(vatOutput) as real) - (100.0 * vatInput - Pesewas(vatInput) as real)
  }

  lemma NotPositive(vatOutput: real, vatInput: real)
    requires vatOutput <= vatInput
    ensures Pesewas(NetVat(vatOutput, vatInput)) == 0 == Recomputed(vatOutput, vatInput)
  {
  }

  /** The printed net VAT is never more than one pesewa away from the difference of the printed
      output and input tax, for amounts of any precision and sign. */
  lemma NetVatWithinOnePesewa(vatOutput: real, vatInput: real, nhil: real, getfund: real, covidLevy: real,
                              totalTax: real)
    ensures
      var f := BuildFigures(vatOutput, vatInput, nhil, getfund, covidLevy, totalTax);
      && Denotes(f.netVat) == Some(Pesewas(NetVat(vatOutput, vatInput)))
      && Denotes(f.outputTax) == Some(Pesewas(vatOutput))
      && Denotes(f.inputTax) == Some(Pesewas(vatInput))
      && -1 <= Pesewas(NetVat(vatOutput, vatInput)) - Recomputed(vatOutput, vatInput) <= 1
  {
    FigureReadsBack(NetVat(vatOutput, vatInput));
    FigureReadsBack(vatOutput);
    FigureReadsBack(vatInput);
    if vatOutput <= vatInput {
      NotPositive(vatOutput, vatInput);
    } else {
      RoundMonotone(100.0 * vatInput, 100.0 * vatOutput);
      RoundIff(100.0 * vatOutput, Pesewas(vatOutput));
      RoundIff(100.0 * vatInput, Pesewas(vatInput));
      RoundIff(100.0 * (vatOutput - vatInput), Pesewas(vatOutput - vatInput));
    }
  }

  /** Exactly when the printed figures agree to the pesewa. */
  lemma FiguresAgreeIff(vatOutput: real, vatInput: real)
    ensures
      var gap := RoundingGap(vatOutput, vatInput);
      Pesewas(NetVat(vatOutput, vatInput)) == Recomputed(vatOutput, vatInput) <==>
        || vatOutput <= vatInput
        || Abs(gap) < 0.5
        || (Abs(gap) == 0.5 && (Pesewas(vatOutput) - Pesewas(vatInput)) % 2 == 0)
  {
  }

  /** They agree whenever both taxes are whole pesewas, as in the columns they come from. */
  lemma WholeFiguresAgree(vatOutput: real, vatInput: real)
    requires WholePesewas(vatOutput) && WholePesewas(vatInput)
    ensures Pesewas(NetVat(vatOutput, vatInput)) == Recomputed(vatOutput, vatInput)
  {
  }

  /** The bound is reached: 0.015 and 0.005 print as 0.02 and 0.00, their difference as 0.01. */
  lemma OnePesewaApart()
    ensures Pesewas(NetVat(0.015, 0.005)) == 1 && Recomputed(0.015, 0.005) == 2
  {
  }
}
