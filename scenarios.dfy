/** Worked cases of the analyser on small quote tables. */
module Scenarios {
  import opened Wrappers
  import opened Frames
  import opened Numeric
  import opened Analyzer

  function Quotes(): (d: Dataset)
    ensures WellFormed(d)
  {
    Dataset([Name("Symbol"), Name("Change")],
            [[Text("ABC"), Text("+5.20%")], [Text("XYZ"), Text("-3.10%")], [Text("QRS"), Text("0.00%")]])
  }

  lemma QuotesChanges()
    ensures |Coerced(Quotes(), 1)| == 3
    ensures Coerced(Quotes(), 1)[0] == Some(5.2) && Coerced(Quotes(), 1)[1] == Some(-3.1)
    ensures Coerced(Quotes(), 1)[2] == Some(0.0)
  {
    CoerceGain();
    CoerceLoss();
    CoerceFlat();
  }

  lemma CoerceGain() ensures Coerce(Text("+5.20%")) == Some(5.2) {
    StripGain();
    ParseGain();
  }

  lemma StripGain() ensures StripPercent("+5.20%") == "+5.20" {
    assert "+5.20" + "%" == "+5.20%";
    StripTrailingPercent("+5.20");
  }
  lemma ParseGain() ensures ParseDecimal("+5.20") == Some(5.2) { }

  lemma CoerceLoss() ensures Coerce(Text("-3.10%")) == Some(-3.1) {
    StripLoss();
    ParseLoss();
  }

  lemma StripLoss() ensures StripPercent("-3.10%") == "-3.10" {
    assert "-3.10" + "%" == "-3.10%";
    StripTrailingPercent("-3.10");
  }
  lemma ParseLoss() ensures ParseDecimal("-3.10") == Some(-3.1) { }

  lemma CoerceFlat() ensures Coerce(Text("0.00%")) == Some(0.0) {
    StripFlat();
    ParseFlat();
  }

  lemma StripFlat() ensures StripPercent("0.00%") == "0.00" {
    assert "0.00" + "%" == "0.00%";
    StripTrailingPercent("0.00");
  }
  lemma ParseFlat() ensures ParseDecimal("0.00") == Some(0.0) { }

  lemma QuotesSymbols()
    ensures Column(Quotes(), 0) == [Text("ABC"), Text("XYZ"), Text("QRS")]
  {
  }

  lemma CandidatesOfThree(syms: seq<Cell>, vals: seq<Option<real>>)
    requires |syms| == |vals| == 3
    requires vals[0] == Some(5.2) && vals[1] == Some(-3.1) && vals[2] == Some(0.0)
    ensures Candidates(syms, vals) == [Mover(0, syms[0], 5.2), Mover(1, syms[1], -3.1), Mover(2, syms[2], 0.0)]
  {
    CandidatesOfTwo(syms[..2], vals[..2]);
    CandidatesStep(syms, vals);
  }

  lemma CandidatesStep(syms: seq<Cell>, vals: seq<Option<real>>)
    requires |syms| == |vals| > 0 && vals[|vals| - 1].Some?
    ensures Candidates(syms, vals) ==
              Candidates(syms[..|vals| - 1], vals[..|vals| - 1]) + [Mover(|vals| - 1, syms[|vals| - 1], vals[|vals| - 1].value)]
  {
  }

  lemma CandidatesOfTwo(syms: seq<Cell>, vals: seq<Option<real>>)
    requires |syms| == |vals| == 2
    requires vals[0] == Some(5.2) && vals[1] == Some(-3.1)
    ensures Candidates(syms, vals) == [Mover(0, syms[0], 5.2), Mover(1, syms[1], -3.1)]
  {
    CandidatesStep(syms[..1], vals[..1]);
    assert syms[..1][..0] == [] && vals[..1][..0] == [];
    CandidatesStep(syms, vals);
  }

  lemma RankThree(a: Mover, x: Mover, q: Mover)
    requires a.row == 0 && x.row == 1 && q.row == 2
    requires a.change == 5.2 && x.change == -3.1 && q.change == 0.0
    ensures Rank(Largest, [a, x, q]) == [a, q, x]
    ensures Rank(Smallest, [a, x, q]) == [x, q, a]
  {
    RankPrefixes(a, x, q);
    InsertThird(a, x, q);
  }

  lemma RankPrefixes(a: Mover, x: Mover, q: Mover)
    requires a.row == 0 && x.row == 1 && a.change == 5.2 && x.change == -3.1
    ensures [a, x, q][..2] == [a, x] && [a, x][..1] == [a] && [a][..0] == []
    ensures Rank(Largest, [a, x]) == [a, x] && Rank(Smallest, [a, x]) == [x, a]
  {
    assert [a, x][..1] == [a] && [a][..0] == [];
  }

  lemma InsertThird(a: Mover, x: Mover, q: Mover)
    requires a.row == 0 && x.row == 1 && q.row == 2
    requires a.change == 5.2 && x.change == -3.1 && q.change == 0.0
    ensures Insert(Largest, q, [a, x]) == [a, q, x]
    ensures Insert(Smallest, q, [x, a]) == [x, q, a]
  {
    assert [a, x][1..] == [x] && [x, a][1..] == [a];
    assert Insert(Largest, q, [x]) == [q, x];
    assert Insert(Smallest, q, [a]) == [q, a];
  }

  /** The ranking of the three quotes with n = 2: the flat quote is both the
      second gainer and the second decliner. */
  lemma ThreeQuotesTopTwo()
    ensures GetTopMovers(Quotes(), "Symbol", "Change", 2) ==
              Success(Movers([Mover(0, Text("ABC"), 5.2), Mover(2, Text("QRS"), 0.0)],
                             [Mover(1, Text("XYZ"), -3.1), Mover(2, Text("QRS"), 0.0)]))
  {
    var d := Quotes();
    QuotesColumns();
    var syms, vals := SymbolCells(d, 0, 1), Coerced(d, 1);
    QuotesChanges();
    QuotesSymbols();
    CandidatesOfThree(syms, vals);
    var a, x, q := Mover(0, Text("ABC"), 5.2), Mover(1, Text("XYZ"), -3.1), Mover(2, Text("QRS"), 0.0);
    TopTwoOfThree(a, x, q);
  }

  lemma QuotesColumns()
    ensures IndexOf(Quotes().columns, Name("Change")) == Some(1)
    ensures IndexOf(Quotes().columns, Name("Symbol")) == Some(0)
  {
  }

  lemma TopTwoOfThree(a: Mover, x: Mover, q: Mover)
    requires a.row == 0 && x.row == 1 && q.row == 2
    requires a.change == 5.2 && x.change == -3.1 && q.change == 0.0
    ensures Top(Largest, [a, x, q], 2) == [a, q]
    ensures Top(Smallest, [a, x, q], 2) == [x, q]
  {
    RankThree(a, x, q);
    ThreeRowsDistinct(a, x, q);
    TopTwoOf(Largest, [a, x, q], [a, q, x]);
    TopTwoOf(Smallest, [a, x, q], [x, q, a]);
  }

  lemma ThreeRowsDistinct(a: Mover, x: Mover, q: Mover)
    requires a.row == 0 && x.row == 1 && q.row == 2
    ensures DistinctRows([a, x, q])
  {
  }

  /** The top two of three are the first two of their ranking. */
  lemma TopTwoOf(o: Order, s: seq<Mover>, ranked: seq<Mover>)
    requires |s| == 3 && DistinctRows(s) && Rank(o, s) == ranked
    ensures Top(o, s, 2) == [ranked[0], ranked[1]]
  {
    TopIsRankPrefix(o, s, 2);
    assert ranked[..2] == [ranked[0], ranked[1]];
  }

  /** "n/a" is no number: a row showing it ranks nowhere and raises nothing. */
  lemma NotApplicableIsUndefined()
    ensures Coerce(Text("n/a")) == None
  {
  }

  /** "+12.5%": an explicit sign, one decimal and a percent sign. */
  lemma PlusTwelveAndAHalf()
    ensures Coerce(Text("+12.5%")) == Some(12.5)
  {
    TwelveAndAHalfValue();
    assert "+" + "12" + "." + "5" + "%" == "+12.5%";
    CoerceWrittenChange("+", "12", "5");
  }

  lemma TwelveAndAHalfValue()
    ensures AllDigits("12") && AllDigits("5")
    ensures DecimalValue("12", "5") == 12.5
  {
    TwelveValue();
    assert "5"[..0] == [];
    assert DigitsValue("5") == 5;
    assert Pow10(1) == 10;
  }

  lemma TwelveValue()
    ensures AllDigits("12") && DigitsValue("12") == 12
  {
    assert "12"[..1] == "1" && "1"[..0] == [];
  }

  /** A second point or a sign after the digits is no number. */
  lemma MalformedChanges()
    ensures Coerce(Text("1.2.3%")) == None
    ensures Coerce(Text("5-%")) == None
  {
    StripTwoPoints();
    TwoPointsMalformed();
    StripTrailingSign();
    TrailingSignMalformed();
  }

  lemma StripTwoPoints() ensures StripPercent("1.2.3%") == "1.2.3" {
    assert "1.2.3" + "%" == "1.2.3%";
    StripTrailingPercent("1.2.3");
  }
  lemma StripTrailingSign() ensures StripPercent("5-%") == "5-" {
    assert "5-" + "%" == "5-%";
    StripTrailingPercent("5-");
  }

  lemma TwoPointsMalformed() ensures !DecimalSyntax("1.2.3") {
    assert "1.2.3"[1] == '.' && "1.2.3"[3] == '.';
  }

  lemma TrailingSignMalformed() ensures !DecimalSyntax("5-") {
    assert "5-"[1] == '-';
  }
}
