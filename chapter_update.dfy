/** The statement `updateChapter` in server.js sends: a SET clause over the
    fields present, numbered placeholders, and the chapter and manga ids
    bound last for the WHERE clause. */
module ChapterUpdate {
  import opened Wrappers
  import opened Text

  /** A bound parameter value. */
  datatype Value = Text(s: string) | Number(n: int)

  /** The fields a request may change; an absent field is `None`. */
  datatype UpdateData = UpdateData(title: Option<string>, number: Option<int>)

  datatype Assignment = Assignment(column: string, value: Value)

  datatype UpdateQuery = UpdateQuery(setClause: string, whereClause: string, values: seq<Value>)

  /** The columns to set, in the order the code tests them. */
  function Assignments(data: UpdateData): (r: seq<Assignment>)
    ensures |r| <= 2
  {
    (if data.title.Some? then [Assignment("title", Text(data.title.value))] else [])
    + (if data.number.Some? then [Assignment("number", Number(data.number.value))] else [])
  }

  function SetItem(column: string, index: nat): string {
    column + " = $" + Decimal(index)
  }

  /** `column = $k` for each assignment, numbered from `first`. */
  function SetItems(assignments: seq<Assignment>, first: nat): (r: seq<string>)
    ensures |r| == |assignments|
    ensures forall i :: 0 <= i < |r| ==> r[i] == SetItem(assignments[i].column, first + i)
  {
    if assignments == [] then []
    else [SetItem(assignments[0].column, first)] + SetItems(assignments[1..], first + 1)
  }

  function ValuesOf(assignments: seq<Assignment>): (r: seq<Value>)
    ensures |r| == |assignments|
    ensures forall i :: 0 <= i < |r| ==> r[i] == assignments[i].value
  {
    if assignments == [] then [] else [assignments[0].value] + ValuesOf(assignments[1..])
  }

  /** Items separated by `, `. */
  function Join(items: seq<string>): string {
    if items == [] then ""
    else if |items| == 1 then items[0]
    else items[0] + ", " + Join(items[1..])
  }

  function WhereClause(idParam: nat): string {
    "id = $" + Decimal(idParam) + " AND manga_id = $" + Decimal(idParam + 1)
  }

  /** The statement as a whole: nothing when no field is present;
      otherwise one numbered placeholder per field, then the chapter id and
      the manga id. */
  function UpdateQueryOf(mangaId: string, chapterId: string, data: UpdateData): Option<UpdateQuery>
  {
    var assignments := Assignments(data);
    if assignments == [] then None
    else Some(UpdateQuery(Join(SetItems(assignments, 1)), WhereClause(|assignments| + 1),
                          ValuesOf(assignments) + [Text(chapterId), Text(mangaId)]))
  }

  /** The builder as written: the clause grows with a trailing `, `, the
      placeholder index counts up, and the trailing separator is cut. */
  method BuildUpdate(mangaId: string, chapterId: string, data: UpdateData) returns (r: Option<UpdateQuery>)
    ensures r == UpdateQueryOf(mangaId, chapterId, data)
  {
    var setClause := "";
    var values: seq<Value> := [];
    var paramIndex := 1;
    if data.title.Some? {
      setClause := setClause + SetItem("title", paramIndex) + ", ";
      paramIndex := paramIndex + 1;
      values := values + [Text(data.title.value)];
    }
    if data.number.Some? {
      setClause := setClause + SetItem("number", paramIndex) + ", ";
      paramIndex := paramIndex + 1;
      values := values + [Number(data.number.value)];
    }
    if setClause == "" {
      return None;
    }
    ghost var assignments := Assignments(data);
    ghost var items := SetItems(assignments, 1);
    assert paramIndex == |assignments| + 1;
    assert values == ValuesOf(assignments);
    if |assignments| == 1 {
      assert setClause == items[0] + ", ";
      assert setClause[..|setClause| - 2] == items[0];
    } else {
      assert setClause == items[0] + ", " + items[1] + ", ";
      assert setClause[..|setClause| - 2] == items[0] + ", " + items[1];
      assert Join(items) == items[0] + ", " + Join(items[1..]);
    }
    setClause := setClause[..|setClause| - 2];
    values := values + [Text(chapterId), Text(mangaId)];
    r := Some(UpdateQuery(setClause, WhereClause(paramIndex), values));
  }

  lemma SmallDecimals()
    ensures Decimal(1) == "1" && Decimal(2) == "2" && Decimal(3) == "3" && Decimal(4) == "4"
  {
    assert DigitChar(1) == '1' && DigitChar(2) == '2' && DigitChar(3) == '3' && DigitChar(4) == '4';
  }

  lemma SetItemsOfOne(a: Assignment)
    ensures SetItems([a], 1) == [SetItem(a.column, 1)]
  {
  }

  lemma SetItemsOfTwo(a: Assignment, b: Assignment)
    ensures SetItems([a, b], 1) == [SetItem(a.column, 1), SetItem(b.column, 2)]
  {
  }

  lemma {:induction false} JoinOfTwo(a: string, b: string)
    ensures Join([a, b]) == a + ", " + b
  {
    assert [a, b][1..] == [b];
  }

  lemma SetItemLiterals()
    ensures SetItem("title", 1) == "title = $1"
    ensures SetItem("number", 1) == "number = $1"
    ensures SetItem("number", 2) == "number = $2"
  {
    SmallDecimals();
  }

  lemma WhereClauseLiterals()
    ensures WhereClause(2) == "id = $2 AND manga_id = $3"
    ensures WhereClause(3) == "id = $3 AND manga_id = $4"
  {
    SmallDecimals();
  }

  /** With only a title, the title is `$1` and the ids `$2` and `$3`. */
  lemma {:induction false} TitleOnlyQuery(mangaId: string, chapterId: string, t: string)
    ensures UpdateQueryOf(mangaId, chapterId, UpdateData(Some(t), None))
            == Some(UpdateQuery("title = $1", "id = $2 AND manga_id = $3",
                                [Text(t), Text(chapterId), Text(mangaId)]))
  {
    var title := Assignment("title", Text(t));
    assert Assignments(UpdateData(Some(t), None)) == [title];
    SetItemsOfOne(title);
    SetItemLiterals();
    WhereClauseLiterals();
    assert ValuesOf([title]) + [Text(chapterId), Text(mangaId)] == [Text(t), Text(chapterId), Text(mangaId)];
  }

  /** With only a number, the number is `$1` and the ids `$2` and `$3`. */
  lemma {:induction false} NumberOnlyQuery(mangaId: string, chapterId: string, n: int)
    ensures UpdateQueryOf(mangaId, chapterId, UpdateData(None, Some(n)))
            == Some(UpdateQuery("number = $1", "id = $2 AND manga_id = $3",
                                [Number(n), Text(chapterId), Text(mangaId)]))
  {
    var number := Assignment("number", Number(n));
    assert Assignments(UpdateData(None, Some(n))) == [number];
    SetItemsOfOne(number);
    SetItemLiterals();
    WhereClauseLiterals();
    assert ValuesOf([number]) + [Text(chapterId), Text(mangaId)] == [Number(n), Text(chapterId), Text(mangaId)];
  }

  /** With both fields, the title is `$1`, the number `$2` and the ids
      `$3` and `$4`. */
  lemma {:induction false} TitleAndNumberQuery(mangaId: string, chapterId: string, t: string, n: int)
    ensures UpdateQueryOf(mangaId, chapterId, UpdateData(Some(t), Some(n)))
            == Some(UpdateQuery("title = $1, number = $2", "id = $3 AND manga_id = $4",
                                [Text(t), Number(n), Text(chapterId), Text(mangaId)]))
  {
    var title := Assignment("title", Text(t));
    var number := Assignment("number", Number(n));
    assert Assignments(UpdateData(Some(t), Some(n))) == [title, number];
    TwoItemSetClause(title, number);
    WhereClauseLiterals();
    assert ValuesOf([title, number]) + [Text(chapterId), Text(mangaId)]
        == [Text(t), Number(n), Text(chapterId), Text(mangaId)];
  }

  lemma {:induction false} TwoItemSetClause(title: Assignment, number: Assignment)
    requires title.column == "title" && number.column == "number"
    ensures Join(SetItems([title, number], 1)) == "title = $1, number = $2"
  {
    SetItemsOfTwo(title, number);
    SetItemLiterals();
    JoinOfTwo("title = $1", "number = $2");
  }

  /** With no field present, nothing is sent. */
  lemma EmptyUpdateSendsNothing(mangaId: string, chapterId: string)
    ensures UpdateQueryOf(mangaId, chapterId, UpdateData(None, None)) == None
  {
  }

  /** Every placeholder is bound: the SET placeholders `$1..$k` take the
      field values in order and the WHERE placeholders the two ids, which
      are the last two values. */
  lemma PlaceholdersBindInOrder(mangaId: string, chapterId: string, data: UpdateData)
    requires UpdateQueryOf(mangaId, chapterId, data).Some?
    ensures var q := UpdateQueryOf(mangaId, chapterId, data).value;
      var k := |Assignments(data)|;
      |q.values| == k + 2 && 1 <= k
      && (forall i :: 0 <= i < k ==> q.values[i] == Assignments(data)[i].value)
      && q.values[k] == Text(chapterId) && q.values[k + 1] == Text(mangaId)
      && q.whereClause == "id = $" + Decimal(k + 1) + " AND manga_id = $" + Decimal(k + 2)
  {
  }
}
