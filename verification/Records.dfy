/** Opening the candidate rows of a blind-index lookup (src/record.rs). */
module Records {
  import opened BlindIndexes
  import opened Bytes
  import opened Wrappers

  /** How rows of one record type are read: opening one, and the value an index is over,
      absent for an empty optional field. */
  datatype Lookup<!S, !R, !V> = Lookup(
    open: S -> Result<R>,
    value: R -> Option<V>,
    spec: IndexSpec<V>)

  /** What one candidate row contributes: nothing, a hit, or the error it failed with. */
  function Candidate<S, R, V>(at: Lookup<S, R, V>, query: Result<Bytes>, row: S): Option<Result<R>> {
    match at.open(row)
    case Err(error) => Some(Err(error))
    case Ok(record) =>
      match at.value(record)
      case None => None
      case Some(value) =>
        match VerifyCandidate(at.spec, query, value)
        case Err(error) => Some(Err(error))
        case Ok(matches) => if matches then Some(Ok(record)) else None
  }

  function Candidates<S, R, V>(at: Lookup<S, R, V>, query: Result<Bytes>, rows: seq<S>): seq<Result<R>> {
    if rows == [] then [] else
    var before := Candidates(at, query, rows[..|rows| - 1]);
    match Candidate(at, query, rows[|rows| - 1])
    case None => before
    case Some(result) => before + [result]
  }

  /** Opens the candidates and keeps the matches, in the order of `rows`; fails only if
      the query itself cannot be normalized. */
  method OpenMatching<S, R, V>(at: Lookup<S, R, V>, query: Result<Bytes>, rows: seq<S>)
    returns (r: Result<seq<Result<R>>>)
    ensures query.Err? ==> r == Err(query.error)
    ensures query.Ok? ==> r == Ok(Candidates(at, query, rows))
  {
    if query.Err? {
      return Err(query.error);
    }
    var results: seq<Result<R>> := [];
    var i := 0;
    while i < |rows|
      invariant 0 <= i <= |rows|
      invariant results == Candidates(at, query, rows[..i])
    {
      assert rows[..i + 1][..i] == rows[..i];
      match at.open(rows[i]) {
        case Err(error) =>
          results := results + [Err(error)];
        case Ok(record) =>
          match at.value(record) {
            case None =>
            case Some(value) =>
              match VerifyCandidate(at.spec, query, value) {
                case Err(error) => results := results + [Err(error)];
                case Ok(matches) =>
                  if matches {
                    results := results + [Ok(record)];
                  }
              }
          }
      }
      i := i + 1;
    }
    assert rows[..i] == rows;
    return Ok(results);
  }

  /** The record a row opens to holds a value that normalizes to the query. */
  ghost predicate IsMatch<S, R, V>(at: Lookup<S, R, V>, normalized: Bytes, row: S, record: R) {
    && at.open(row) == Ok(record)
    && at.value(record).Some?
    && at.spec.normalizeValue(at.value(record).value) == Ok(normalized)
  }

  /** A record is a hit exactly when some row opens to it and it matches: no match is
      dropped, and no false candidate is kept. */
  lemma {:induction false} HitsAreMatches<S, R, V>(
    at: Lookup<S, R, V>, normalized: Bytes, rows: seq<S>, record: R)
    ensures Ok(record) in Candidates(at, Ok(normalized), rows)
       <==> exists i :: 0 <= i < |rows| && IsMatch(at, normalized, rows[i], record)
    decreases |rows|
  {
    if rows != [] {
      var before, last := rows[..|rows| - 1], rows[|rows| - 1];
      HitsAreMatches(at, normalized, before, record);
      assert IsMatch(at, normalized, last, record) <==> Candidate(at, Ok(normalized), last) == Some(Ok(record));
      forall i | 0 <= i < |rows|
        ensures IsMatch(at, normalized, rows[i], record) <==>
                if i < |before| then IsMatch(at, normalized, before[i], record)
                else IsMatch(at, normalized, last, record)
      {
        assert i < |before| ==> rows[i] == before[i];
      }
      if exists i :: 0 <= i < |before| && IsMatch(at, normalized, before[i], record) {
        var i :| 0 <= i < |before| && IsMatch(at, normalized, before[i], record);
        assert IsMatch(at, normalized, rows[i], record);
      }
      if IsMatch(at, normalized, last, record) {
        assert IsMatch(at, normalized, rows[|rows| - 1], record);
      }
    }
  }

  /** A row that matches is found among any that include it. */
  lemma {:induction false} MatchIsFound<S, R, V>(
    at: Lookup<S, R, V>, normalized: Bytes, rows: seq<S>, i: nat, record: R)
    requires i < |rows| && IsMatch(at, normalized, rows[i], record)
    ensures Ok(record) in Candidates(at, Ok(normalized), rows)
  {
    HitsAreMatches(at, normalized, rows, record);
  }

  /** What one row contributes, exactly: a hit if its value normalizes to the query, its
      error if it does not open or does not normalize, and nothing otherwise. */
  lemma {:induction false} RowContributes<S, R, V>(
    at: Lookup<S, R, V>, normalized: Bytes, row: S, record: R, value: V, error: Error)
    ensures at.open(row) == Err(error) ==> Candidates(at, Ok(normalized), [row]) == [Err(error)]
    ensures at.open(row) == Ok(record) && at.value(record) == None ==> Candidates(at, Ok(normalized), [row]) == []
    ensures at.open(row) == Ok(record) && at.value(record) == Some(value) ==>
              Candidates(at, Ok(normalized), [row])
                == match at.spec.normalizeValue(value)
                   case Err(error) => [Err(error)]
                   case Ok(other) => if other == normalized then [Ok(record)] else []
  {
    assert [row][..0] == [];
    assert Candidates(at, Ok(normalized), [row][..0]) == [];
  }

  /** The error of a candidate that does not open is among the results. */
  lemma {:induction false} FailuresAreReported<S, R, V>(
    at: Lookup<S, R, V>, query: Result<Bytes>, rows: seq<S>, i: nat)
    requires i < |rows| && at.open(rows[i]).Err?
    ensures Err(at.open(rows[i]).error) in Candidates(at, query, rows)
    decreases |rows|
  {
    if i < |rows| - 1 {
      FailuresAreReported(at, query, rows[..|rows| - 1], i);
    }
  }

  /** Rows kept come in the order of `rows`, so a lookup distributes over pages. */
  lemma {:induction false} CandidatesInParts<S, R, V>(
    at: Lookup<S, R, V>, query: Result<Bytes>, first: seq<S>, rest: seq<S>)
    ensures Candidates(at, query, first + rest) == Candidates(at, query, first) + Candidates(at, query, rest)
    decreases |rest|
  {
    if rest == [] {
      assert first + rest == first;
    } else {
      assert (first + rest)[..|first + rest| - 1] == first + rest[..|rest| - 1];
      CandidatesInParts(at, query, first, rest[..|rest| - 1]);
    }
  }
}
