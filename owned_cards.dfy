/** The owned-cards table: the name in the first column of every row after the header. */
module OwnedCards {
  import opened Results

  /** The names of the owned cards, given the rows of the table as `csv.reader` yields them:
      StopIteration when there is not even a header row, IndexError when a later row is empty. */
  function OwnedCardNames(rows: seq<seq<string>>): (r: Result<set<string>>)
    ensures r.Failure? <==> rows == [] || exists i :: 1 <= i < |rows| && rows[i] == []
    ensures rows == [] ==> r == Failure(StopIteration)
    ensures rows != [] && r.Failure? ==> r.error == IndexError
    ensures r.Success? ==> forall n :: n in r.value <==> exists i :: 1 <= i < |rows| && rows[i] != [] && rows[i][0] == n
  {
    if rows == [] then Failure(StopIteration)
    else if exists i :: 1 <= i < |rows| && rows[i] == [] then Failure(IndexError)
    else Success(set i | 1 <= i < |rows| && rows[i] != [] :: rows[i][0])
  }

  /** `read_owned_list_csv` past the file handling: skips the header row, then adds the first
      field of each remaining row to a set. */
  method ReadOwnedRows(rows: seq<seq<string>>) returns (r: Result<set<string>>)
    ensures r == OwnedCardNames(rows)
  {
    if rows == [] {
      return Failure(StopIteration);
    }
    var cards: set<string> := {};
    for i := 1 to |rows|
      invariant forall j :: 1 <= j < i ==> rows[j] != []
      invariant cards == set j | 1 <= j < i && rows[j] != [] :: rows[j][0]
    {
      if rows[i] == [] {
        return Failure(IndexError);
      }
      cards := cards + {rows[i][0]};
    }
    return Success(cards);
  }
}
