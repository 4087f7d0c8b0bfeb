/**
 * The attractivity-weighted choice engine: every service (a city and a
 * speciality) gets a score, the scores are normalised into shares and
 * running sums, and each request a student makes picks the first service
 * whose running sum reaches a uniform draw (inverse-CDF sampling).
 *
 * The random draws are inputs here: one real per request.
 */
module ChoiceRandomizer {
  import opened Common
  import opened Assignment

  const SpecImportance: real := 3.0
  const CityImportance: real := 2.0

  /** One row of the service table: a city crossed with a speciality, with their weights. */
  datatype Row = Row(city: string, idSpec: string, coefCity: real, coefSpec: real, ignoreCity: real)

  /**
   * Attractivity of a service. The speciality weight always counts in full;
   * the city weight counts in proportion to how little the speciality lets
   * students ignore the city.
   */
  function CalculateCoef(coefCity: real, coefSpec: real, ignoreCity: real): (r: real)
    ensures ignoreCity == 1.0 ==> r == SpecImportance * coefSpec
    ensures ignoreCity == 0.0 ==> r == SpecImportance * coefSpec + CityImportance * coefCity
    ensures 0.0 <= coefCity && 0.0 <= coefSpec && ignoreCity <= 1.0 ==> 0.0 <= r
  {
    SpecImportance * coefSpec + CityImportance * coefCity * (1.0 - ignoreCity)
  }

  /**
   * With an ignorability of at most 1, a better city and a better speciality
   * never lower the score, and a strictly better speciality raises it.
   */
  lemma CalculateCoefMonotone(city1: real, city2: real, spec1: real, spec2: real, ignoreCity: real)
    requires city1 <= city2 && spec1 <= spec2 && ignoreCity <= 1.0
    ensures CalculateCoef(city1, spec1, ignoreCity) <= CalculateCoef(city2, spec2, ignoreCity)
    ensures spec1 < spec2 ==> CalculateCoef(city1, spec1, ignoreCity) < CalculateCoef(city2, spec2, ignoreCity)
  {
    WeightedSumMonotone(SpecImportance, CityImportance, spec1, spec2, city1, city2, 1.0 - ignoreCity);
  }

  lemma WeightedSumMonotone(ks: real, kc: real, s1: real, s2: real, c1: real, c2: real, w: real)
    requires 0.0 < ks && 0.0 <= kc && s1 <= s2 && c1 <= c2 && 0.0 <= w
    ensures ks * s1 + kc * c1 * w <= ks * s2 + kc * c2 * w
    ensures s1 < s2 ==> ks * s1 + kc * c1 * w < ks * s2 + kc * c2 * w
  {
    assert kc * c1 <= kc * c2;
    assert kc * c1 * w <= kc * c2 * w;
  }

  function Sum(xs: seq<real>): real
  {
    if |xs| == 0 then 0.0 else Sum(xs[..|xs| - 1]) + xs[|xs| - 1]
  }

  predicate NonNegative(xs: seq<real>)
  {
    forall i :: 0 <= i < |xs| ==> 0.0 <= xs[i]
  }

  predicate NonDecreasing(xs: seq<real>)
  {
    forall i, j :: 0 <= i <= j < |xs| ==> xs[i] <= xs[j]
  }

  /** The `attractivity_raw` column: one score per row, in row order. */
  function RawColumn(rows: seq<Row>): (raw: seq<real>)
    ensures |raw| == |rows|
    ensures (forall i :: 0 <= i < |rows| ==>
               0.0 <= rows[i].coefCity && 0.0 <= rows[i].coefSpec && rows[i].ignoreCity <= 1.0)
            ==> NonNegative(raw)
  {
    seq(|rows|, i requires 0 <= i < |rows| => CalculateCoef(rows[i].coefCity, rows[i].coefSpec, rows[i].ignoreCity))
  }

  /** Every score divided by `t`. */
  function Scaled(xs: seq<real>, t: real): seq<real>
    requires xs == [] || t != 0.0
  {
    seq(|xs|, i requires 0 <= i < |xs| => xs[i] / t)
  }

  /** Scores that can be divided by their total (an empty column divides to an empty column). */
  predicate Normalizable(raw: seq<real>)
  {
    raw == [] || Sum(raw) != 0.0
  }

  /** The `attractivity_pourcentage` column: each score over the total of all scores. */
  function Shares(raw: seq<real>): (shares: seq<real>)
    requires Normalizable(raw)
    ensures |shares| == |raw|
    ensures raw != [] ==> Sum(shares) == 1.0
  {
    if raw != [] then
      SumOfScaled(raw, Sum(raw));
      assert Sum(raw) / Sum(raw) == 1.0;
      Scaled(raw, Sum(raw))
    else Scaled(raw, Sum(raw))
  }

  /** The `attractivity_cumsum` column: entry `i` is the total of entries `0..i`. */
  function PrefixSums(xs: seq<real>): (sums: seq<real>)
    ensures |sums| == |xs|
    ensures |xs| > 0 ==> sums[|xs| - 1] == Sum(xs)
  {
    assert xs[..|xs|] == xs;
    seq(|xs|, i requires 0 <= i < |xs| => Sum(xs[..i + 1]))
  }

  lemma {:induction false} SumOfScaled(xs: seq<real>, t: real)
    requires t != 0.0
    ensures Sum(Scaled(xs, t)) == Sum(xs) / t
  {
    if |xs| > 0 {
      var n := |xs| - 1;
      assert Scaled(xs, t)[..n] == Scaled(xs[..n], t);
      SumOfScaled(xs[..n], t);
      assert Sum(xs[..n]) / t + xs[n] / t == (Sum(xs[..n]) + xs[n]) / t;
    }
  }

  lemma {:induction false} ElementAtMostSum(xs: seq<real>, k: nat)
    requires NonNegative(xs) && k < |xs|
    ensures 0.0 <= xs[k] <= Sum(xs)
  {
    var n := |xs| - 1;
    if k < n {
      ElementAtMostSum(xs[..n], k);
      SumNonNegative(xs[..n]);
    } else {
      SumNonNegative(xs[..n]);
    }
  }

  lemma {:induction false} SumNonNegative(xs: seq<real>)
    requires NonNegative(xs)
    ensures 0.0 <= Sum(xs)
  {
    if |xs| > 0 {
      SumNonNegative(xs[..|xs| - 1]);
    }
  }

  lemma QuotientInUnitInterval(a: real, t: real)
    requires 0.0 <= a <= t && t != 0.0
    ensures 0.0 <= a / t <= 1.0
  {
    assert (a / t) * t == a;
  }

  /** With nonnegative scores every share is a probability. */
  lemma SharesInUnitInterval(raw: seq<real>)
    requires NonNegative(raw) && Sum(raw) != 0.0
    ensures NonNegative(Shares(raw))
    ensures forall i :: 0 <= i < |raw| ==> Shares(raw)[i] <= 1.0
  {
    var total := Sum(raw);
    SumNonNegative(raw);
    forall i | 0 <= i < |raw|
      ensures 0.0 <= Shares(raw)[i] <= 1.0
    {
      ElementAtMostSum(raw, i);
      assert Shares(raw)[i] == raw[i] / total;
      QuotientInUnitInterval(raw[i], total);
    }
  }

  /** Each running sum is the previous one plus the current entry. */
  lemma PrefixSumsStep(xs: seq<real>, k: nat)
    requires k < |xs|
    ensures PrefixSums(xs)[k] == (if k == 0 then 0.0 else PrefixSums(xs)[k - 1]) + xs[k]
  {
    var s := xs[..k + 1];
    assert s[..k] == xs[..k] && s[k] == xs[k];
    assert Sum(s) == Sum(s[..k]) + s[k];
    if k == 0 {
      assert Sum(s[..k]) == 0.0;
    }
  }

  lemma {:induction false} SumOfPrefixMonotone(xs: seq<real>, i: nat, j: nat)
    requires NonNegative(xs) && i <= j <= |xs|
    ensures Sum(xs[..i]) <= Sum(xs[..j])
    decreases j - i
  {
    if i < j {
      SumOfPrefixMonotone(xs, i, j - 1);
      assert xs[..j][..j - 1] == xs[..j - 1];
    }
  }

  /** Running sums of nonnegative entries never go down. */
  lemma PrefixSumsNonDecreasing(xs: seq<real>)
    requires NonNegative(xs)
    ensures NonDecreasing(PrefixSums(xs))
  {
    forall i, j | 0 <= i <= j < |xs|
      ensures PrefixSums(xs)[i] <= PrefixSums(xs)[j]
    {
      SumOfPrefixMonotone(xs, i + 1, j + 1);
    }
  }

  /** The scores of a service table whose weights are in range and not all zero. */
  predicate ValidWeights(rows: seq<Row>)
  {
    && (forall i :: 0 <= i < |rows| ==>
          0.0 <= rows[i].coefCity && 0.0 <= rows[i].coefSpec && rows[i].ignoreCity <= 1.0)
    && Sum(RawColumn(rows)) != 0.0
  }

  /** The `attractivity_cumsum` column computed from a table's rows. */
  function Cumsum(rows: seq<Row>): (cum: seq<real>)
    requires Normalizable(RawColumn(rows))
    ensures |cum| == |rows|
  {
    PrefixSums(Shares(RawColumn(rows)))
  }

  /**
   * For valid weights the running sums form a distribution function: they
   * never go down and the last one is exactly one.
   */
  lemma CumsumIsDistribution(rows: seq<Row>)
    requires ValidWeights(rows)
    ensures |rows| > 0
    ensures NonDecreasing(Cumsum(rows))
    ensures Cumsum(rows)[|rows| - 1] == 1.0
  {
    var raw := RawColumn(rows);
    assert NonNegative(raw);
    SharesInUnitInterval(raw);
    PrefixSumsNonDecreasing(Shares(raw));
  }

  /** Index of the first running sum that reaches the draw `u`, if any. */
  function SelectIndex(cum: seq<real>, u: real): (k: Option<nat>)
    ensures k.None? <==> forall j :: 0 <= j < |cum| ==> cum[j] < u
    ensures k.Some? ==> k.value < |cum| && u <= cum[k.value]
    ensures k.Some? ==> forall j :: 0 <= j < k.value ==> cum[j] < u
  {
    if |cum| == 0 then None
    else if u <= cum[0] then Some(0)
    else match SelectIndex(cum[1..], u)
      case None => None
      case Some(k) => Some(k + 1)
  }

  /** Row `k` holds the first running sum that reaches the draw `u`. */
  predicate FirstReaching(cum: seq<real>, u: real, k: int)
  {
    0 <= k < |cum| && u <= cum[k] && forall j :: 0 <= j < k ==> cum[j] < u
  }

  /** The request a draw produces: the chosen row's speciality and city, under the caller's index. */
  function SelectRequest(rows: seq<Row>, cum: seq<real>, u: real, index: int): (request: Option<AssignmentRequest>)
    requires |cum| == |rows|
    ensures request.None? <==> forall j :: 0 <= j < |cum| ==> cum[j] < u
    ensures request.Some? ==>
              exists k :: FirstReaching(cum, u, k)
                          && request.value == AssignmentRequest(index, rows[k].idSpec, rows[k].city)
  {
    match SelectIndex(cum, u)
    case None => None
    case Some(k) => Some(AssignmentRequest(index, rows[k].idSpec, rows[k].city))
  }

  /** A draw no larger than the first running sum picks the first row. */
  lemma SelectFirstRow(cum: seq<real>, u: real)
    requires |cum| > 0 && u <= cum[0]
    ensures SelectIndex(cum, u) == Some(0)
  {
  }

  /** A larger draw never picks an earlier row. */
  lemma SelectMonotone(cum: seq<real>, u1: real, u2: real)
    requires u1 <= u2 && SelectIndex(cum, u2).Some?
    ensures SelectIndex(cum, u1).Some?
    ensures SelectIndex(cum, u1).value <= SelectIndex(cum, u2).value
  {
    var k2 := SelectIndex(cum, u2).value;
    assert u1 <= cum[k2];
  }

  /**
   * Over non-decreasing running sums, row `k` is chosen exactly for the
   * draws above the previous running sum and at most its own; a draw equal
   * to a boundary goes to the earlier row.
   */
  lemma SelectIffInInterval(cum: seq<real>, u: real, k: nat)
    requires NonDecreasing(cum) && k < |cum|
    ensures SelectIndex(cum, u) == Some(k) <==> (k == 0 || cum[k - 1] < u) && u <= cum[k]
  {
    if (k == 0 || cum[k - 1] < u) && u <= cum[k] {
      assert SelectIndex(cum, u).Some?;
    }
  }

  /**
   * For valid weights every draw in [0, 1] picks a row, and row `k` is
   * picked exactly on an interval whose width is its score over the total.
   */
  lemma SelectionFollowsAttractivity(rows: seq<Row>, u: real, k: nat)
    requires ValidWeights(rows) && u <= 1.0 && k < |rows|
    ensures SelectIndex(Cumsum(rows), u).Some?
    ensures var cum := Cumsum(rows);
            var start := if k == 0 then 0.0 else cum[k - 1];
            && cum[k] - start == RawColumn(rows)[k] / Sum(RawColumn(rows))
            && (SelectIndex(cum, u) == Some(k) <==> (k == 0 || start < u) && u <= cum[k])
  {
    CumsumIsDistribution(rows);
    PrefixSumsStep(Shares(RawColumn(rows)), k);
    SelectIffInInterval(Cumsum(rows), u, k);
  }

  /**
   * The service table. Its rows are fixed; the three attractivity columns
   * are added to it in place.
   */
  class DataFrame {
    const rows: seq<Row>
    var attractivityRaw: seq<real>
    var attractivityPourcentage: seq<real>
    var attractivityCumsum: seq<real>

    constructor (rows: seq<Row>)
      ensures this.rows == rows
      ensures attractivityRaw == [] && attractivityPourcentage == [] && attractivityCumsum == []
    {
      this.rows := rows;
      attractivityRaw, attractivityPourcentage, attractivityCumsum := [], [], [];
    }

    /** The three columns are present: one entry per row in each. */
    predicate HasAttractivityColumns()
      reads this
    {
      |attractivityRaw| == |rows| && |attractivityPourcentage| == |rows| && |attractivityCumsum| == |rows|
    }

    /** Adds the score, share and running-sum columns. */
    method GenerateAttractivityColumns()
      requires Normalizable(RawColumn(rows))
      modifies this
      ensures HasAttractivityColumns()
      ensures attractivityRaw == RawColumn(rows)
      ensures attractivityPourcentage == Shares(attractivityRaw)
      ensures attractivityCumsum == PrefixSums(attractivityPourcentage)
    {
      var attractivity: seq<real> := [];
      for i := 0 to |rows|
        invariant attractivity == RawColumn(rows)[..i]
      {
        attractivity := attractivity + [CalculateCoef(rows[i].coefCity, rows[i].coefSpec, rows[i].ignoreCity)];
      }
      assert attractivity == RawColumn(rows);
      attractivityRaw := attractivity;
      attractivityPourcentage := Shares(attractivityRaw);
      attractivityCumsum := PrefixSums(attractivityPourcentage);
    }
  }

  /**
   * One request for a draw `choice`: scans the running sums in row order and
   * returns the first row that reaches the draw, or `None` when none does.
   */
  method GenerateAnAssignmentRequest(df: DataFrame, index: int, choice: real) returns (request: Option<AssignmentRequest>)
    requires df.HasAttractivityColumns()
    ensures request == SelectRequest(df.rows, df.attractivityCumsum, choice, index)
    ensures request.None? <==> forall j :: 0 <= j < |df.rows| ==> df.attractivityCumsum[j] < choice
  {
    for current := 0 to |df.rows|
      invariant forall j :: 0 <= j < current ==> df.attractivityCumsum[j] < choice
    {
      if df.attractivityCumsum[current] >= choice {
        return Some(AssignmentRequest(index, df.rows[current].idSpec, df.rows[current].city));
      }
    }
    return None;
  }

  /** The list one student draws: request `i + 1` comes from draw `i`; none for a count below one. */
  function StudentRequests(rows: seq<Row>, cum: seq<real>, draws: seq<real>, numberRequests: int): (requests: seq<Option<AssignmentRequest>>)
    requires |cum| == |rows| && numberRequests <= |draws|
    ensures |requests| == if numberRequests < 0 then 0 else numberRequests
    ensures forall i :: 0 <= i < |requests| && requests[i].Some? ==> requests[i].value.index == i + 1
  {
    seq(if numberRequests < 0 then 0 else numberRequests,
        i requires 0 <= i < |draws| => SelectRequest(rows, cum, draws[i], i + 1))
  }

  /** The request names the speciality and city of some row of the table. */
  predicate NamesARow(rows: seq<Row>, request: AssignmentRequest)
  {
    exists k :: 0 <= k < |rows| && request.spec == rows[k].idSpec && request.city == rows[k].city
  }

  /**
   * For valid weights and draws in [0, 1] a student's list has exactly one
   * request per rank `1..n`, in order, each naming a service of the table.
   */
  lemma StudentRequestsComplete(rows: seq<Row>, draws: seq<real>, numberRequests: int)
    requires ValidWeights(rows) && numberRequests <= |draws|
    requires forall i :: 0 <= i < |draws| ==> 0.0 <= draws[i] <= 1.0
    ensures var requests := StudentRequests(rows, Cumsum(rows), draws, numberRequests);
            && |requests| == (if numberRequests < 0 then 0 else numberRequests)
            && forall i :: 0 <= i < |requests| ==>
                 && requests[i].Some?
                 && requests[i].value.index == i + 1
                 && NamesARow(rows, requests[i].value)
  {
    var requests := StudentRequests(rows, Cumsum(rows), draws, numberRequests);
    forall i | 0 <= i < |requests|
      ensures requests[i].Some? && requests[i].value.index == i + 1
      ensures NamesARow(rows, requests[i].value)
    {
      assert requests[i] == SelectRequest(rows, Cumsum(rows), draws[i], i + 1);
      DrawYieldsRequest(rows, draws[i], i + 1);
    }
  }

  /** For valid weights a draw in [0, 1] always yields a request naming a row of the table. */
  lemma DrawYieldsRequest(rows: seq<Row>, u: real, index: int)
    requires ValidWeights(rows) && u <= 1.0
    ensures var request := SelectRequest(rows, Cumsum(rows), u, index);
            && request.Some? && request.value.index == index
            && NamesARow(rows, request.value)
  {
    SelectionFollowsAttractivity(rows, u, 0);
    var k := SelectIndex(Cumsum(rows), u).value;
    assert SelectRequest(rows, Cumsum(rows), u, index) == Some(AssignmentRequest(index, rows[k].idSpec, rows[k].city));
  }

  /** All the requests of one student, one per draw. */
  method GenerateStudentsRequest(df: DataFrame, numberRequests: int, draws: seq<real>)
    returns (requests: seq<Option<AssignmentRequest>>)
    requires df.HasAttractivityColumns() && numberRequests <= |draws|
    ensures requests == StudentRequests(df.rows, df.attractivityCumsum, draws, numberRequests)
  {
    requests := [];
    var index := 0;
    while index < numberRequests
      invariant 0 <= index && (index <= numberRequests || index == 0)
      invariant requests == StudentRequests(df.rows, df.attractivityCumsum, draws, numberRequests)[..index]
    {
      var request := GenerateAnAssignmentRequest(df, index + 1, draws[index]);
      requests := requests + [request];
      index := index + 1;
    }
  }

  /** Overwrites one student's request list with a freshly drawn one. */
  method GenerateStudent(df: DataFrame, numberRequests: int, student: Student, draws: seq<real>)
    requires df.HasAttractivityColumns() && numberRequests <= |draws|
    modifies student
    ensures student.requests == Generated(StudentRequests(df.rows, df.attractivityCumsum, draws, numberRequests))
  {
    var requests := GenerateStudentsRequest(df, numberRequests, draws);
    student.requests := Generated(requests);
  }

  /**
   * The whole population: students ranked `1..numberStudents`, created with
   * the placeholder list, then each filled once from its own draws. The
   * worker pool's fan-out is a sequential pass over the students.
   */
  method GenerateAllStudentRequest(df: DataFrame, numberStudents: int, numberRequests: int, draws: seq<seq<real>>)
    returns (students: seq<Student>)
    requires df.HasAttractivityColumns()
    requires numberStudents <= |draws|
    requires forall s :: 0 <= s < numberStudents ==> numberRequests <= |draws[s]|
    ensures |students| == if numberStudents < 0 then 0 else numberStudents
    ensures forall s :: 0 <= s < |students| ==> fresh(students[s])
    ensures forall s, t :: 0 <= s < t < |students| ==> students[s] != students[t]
    ensures forall s :: 0 <= s < |students| ==>
              && students[s].classement == s + 1
              && students[s].requests
                 == Generated(StudentRequests(df.rows, df.attractivityCumsum, draws[s], numberRequests))
  {
    students := [];
    var s := 0;
    while s < numberStudents
      invariant 0 <= s && (s <= numberStudents || s == 0) && |students| == s
      invariant forall j :: 0 <= j < s ==> fresh(students[j])
      invariant forall j, t :: 0 <= j < t < s ==> students[j] != students[t]
      invariant forall j :: 0 <= j < s ==> students[j].classement == j + 1 && students[j].requests == Placeholder
    {
      var student := new Student(s + 1, Placeholder);
      students := students + [student];
      s := s + 1;
    }
    for t := 0 to |students|
      invariant forall j :: 0 <= j < |students| ==> fresh(students[j]) && students[j].classement == j + 1
      invariant forall j :: 0 <= j < t ==>
                  students[j].requests == Generated(StudentRequests(df.rows, df.attractivityCumsum, draws[j], numberRequests))
      invariant forall j :: t <= j < |students| ==> students[j].requests == Placeholder
    {
      GenerateStudent(df, numberRequests, students[t], draws[t]);
    }
  }
}
