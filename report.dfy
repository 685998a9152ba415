/** The aggregation loop of `main`: for the required group and then the extra
    group, compute each image's verdict, record it in that group's part of
    `summary.json` (keyed by image name), and OR the verdicts of required
    images into the overall `failed` flag. As written, the loop converts every
    total bit count with `int(...)`, which raises on a missing count. */
module Report {
  import opened Wrappers
  import opened Pipeline

  /** One entry of `summary.json` (its RMS figure is not modelled). */
  datatype Entry = Entry(fail: bool, totalBits: Option<int>)

  /** The content of `summary.json`. */
  datatype Summary = Summary(required: map<string, Entry>, extra: map<string, Entry>, failed: bool)

  /** `main` raised at this row: `int(None)` on its missing total. */
  datatype Crash = TotalBitsMissing(required: bool, index: nat)

  function EntryOf<P, H>(row: Row<P, H>): Entry
  {
    Entry(ImageFails(row), row.totalBits)
  }

  /** A group's part of `summary.json`: rows are entered in order, so a later
      row overwrites an earlier one of the same name. */
  function JsonOf<P, H>(rows: seq<Row<P, H>>): map<string, Entry>
  {
    if |rows| == 0 then map[]
    else JsonOf(rows[..|rows| - 1])[rows[|rows| - 1].name := EntryOf(rows[|rows| - 1])]
  }

  predicate AnyFails<P, H>(rows: seq<Row<P, H>>)
  {
    exists i :: 0 <= i < |rows| && ImageFails(rows[i])
  }

  function TotalsKnown<P, H>(rows: seq<Row<P, H>>): (bs: seq<bool>)
    ensures |bs| == |rows| && forall i :: 0 <= i < |rows| ==> bs[i] == rows[i].totalBits.Some?
  {
    seq(|rows|, i requires 0 <= i < |rows| => rows[i].totalBits.Some?)
  }

  /** The report as intended: every row gets an entry, a missing total is
      recorded as null, and only required images decide `failed`. */
  function Intended<P, H>(req: seq<Row<P, H>>, extra: seq<Row<P, H>>): (s: Summary)
    ensures s.failed <==> exists i :: 0 <= i < |req| && ImageFails(req[i])
  {
    Summary(JsonOf(req), JsonOf(extra), AnyFails(req))
  }

  /** The report as the loop of `main` produces it: it raises at the first row,
      required group first, whose total is missing; otherwise the intended report. */
  function Verdict<P, H>(req: seq<Row<P, H>>, extra: seq<Row<P, H>>): Result<Summary, Crash>
  {
    match FirstFalse(TotalsKnown(req))
    case Some(i) => Failure(TotalBitsMissing(true, i))
    case None =>
      match FirstFalse(TotalsKnown(extra))
      case Some(i) => Failure(TotalBitsMissing(false, i))
      case None => Success(Intended(req, extra))
  }

  /** The inner loop of `main` over one group's rows: the verdict of each row is
      entered under its name, and, for the required group, ORed into `fail`.
      It stops at the first row without a total, where `int(None)` raises. */
  method EnterGroup<P, H>(data: seq<Row<P, H>>, required: bool, fail0: bool)
    returns (crash: Option<nat>, thisJson: map<string, Entry>, fail: bool)
    ensures crash == FirstFalse(TotalsKnown(data))
    ensures crash.None? ==> thisJson == JsonOf(data)
    ensures crash.None? ==> fail == (fail0 || (required && AnyFails(data)))
  {
    fail := fail0;
    thisJson := map[];
    for i := 0 to |data|
      invariant thisJson == JsonOf(data[..i])
      invariant forall k :: 0 <= k < i ==> data[k].totalBits.Some?
      invariant fail == (fail0 || (required && AnyFails(data[..i])))
    {
      var row := data[i];
      var thisFail := false;
      if row.vlcBits.None? {
        thisFail := true;
      }
      if row.totalBits.Some? && row.totalBits.value > BitBudget {
        thisFail := true;
      }
      if row.totalBits.None? {
        FirstFalseUnique(TotalsKnown(data), i);
        return Some(i), thisJson, fail;
      }
      assert data[..i + 1][..i] == data[..i];
      thisJson := thisJson[row.name := Entry(thisFail, row.totalBits)];
      if required {
        fail := fail || thisFail;
      }
      assert AnyFails(data[..i + 1]) == (AnyFails(data[..i]) || ImageFails(row)) by {
        assert forall k :: 0 <= k < i ==> data[..i + 1][k] == data[..i][k];
      }
    }
    assert data[..|data|] == data;
    crash := None;
  }

  /** The loop of `main` over the two groups, required first. */
  method Aggregate<P, H>(req: seq<Row<P, H>>, extra: seq<Row<P, H>>) returns (r: Result<Summary, Crash>)
    ensures r == Verdict(req, extra)
  {
    var fail := false;
    var groups := [req, extra];
    var json: seq<map<string, Entry>> := [map[], map[]];
    for g := 0 to 2
      invariant |json| == 2
      invariant g >= 1 ==> FirstFalse(TotalsKnown(req)).None?
      invariant g >= 2 ==> FirstFalse(TotalsKnown(extra)).None?
      invariant json[0] == (if g >= 1 then JsonOf(req) else map[])
      invariant json[1] == (if g >= 2 then JsonOf(extra) else map[])
      invariant fail == (g >= 1 && AnyFails(req))
    {
      var data, required := groups[g], g == 0;
      if |data| == 0 {
        continue;
      }
      var crash, thisJson;
      crash, thisJson, fail := EnterGroup(data, required, fail);
      if crash.Some? {
        return Failure(TotalBitsMissing(required, crash.value));
      }
      json := json[g := thisJson];
    }
    return Success(Summary(json[0], json[1], fail));
  }

  /** A group's json has one key per image name in the group, and no other. */
  lemma {:induction false} JsonKeys<P, H>(rows: seq<Row<P, H>>)
    ensures JsonOf(rows).Keys == set i | 0 <= i < |rows| :: rows[i].name
  {
    if |rows| > 0 {
      var front := rows[..|rows| - 1];
      JsonKeys(front);
      var names := set i | 0 <= i < |rows| :: rows[i].name;
      var frontNames := set i | 0 <= i < |front| :: front[i].name;
      assert names == frontNames + {rows[|rows| - 1].name} by {
        forall n | n in names ensures n in frontNames + {rows[|rows| - 1].name} {
          var i :| 0 <= i < |rows| && rows[i].name == n;
          if i < |rows| - 1 {
            assert front[i].name == n;
          }
        }
        forall n | n in frontNames ensures n in names {
          var i :| 0 <= i < |front| && front[i].name == n;
          assert rows[i].name == n;
        }
      }
    }
  }

  /** The entry under a name is that of the last row with that name. */
  lemma {:induction false} JsonLastWins<P, H>(rows: seq<Row<P, H>>, i: nat)
    requires i < |rows|
    requires forall j :: i < j < |rows| ==> rows[j].name != rows[i].name
    ensures rows[i].name in JsonOf(rows) && JsonOf(rows)[rows[i].name] == EntryOf(rows[i])
  {
    if i < |rows| - 1 {
      var front := rows[..|rows| - 1];
      JsonLastWins(front, i);
    }
  }

  /** The loop of `main` completes exactly when every row of both groups has
      a total, and then writes the intended report. */
  lemma VerdictCompletes<P, H>(req: seq<Row<P, H>>, extra: seq<Row<P, H>>)
    ensures Verdict(req, extra).Success? <==>
      (forall i :: 0 <= i < |req| ==> req[i].totalBits.Some?) &&
      (forall i :: 0 <= i < |extra| ==> extra[i].totalBits.Some?)
    ensures Verdict(req, extra).Success? ==> Verdict(req, extra).value == Intended(req, extra)
  {
  }

  /** Where the loop of `main` raises: at the first row without a total,
      looking at the required group first. */
  lemma VerdictCrashSite<P, H>(req: seq<Row<P, H>>, extra: seq<Row<P, H>>)
    requires Verdict(req, extra).Failure?
    ensures
      var TotalBitsMissing(required, i) := Verdict(req, extra).error;
      var group := if required then req else extra;
      && i < |group| && group[i].totalBits.None?
      && (forall k :: 0 <= k < i ==> group[k].totalBits.Some?)
      && (!required ==> forall k :: 0 <= k < |req| ==> req[k].totalBits.Some?)
  {
  }

  /** As written, a payload that `vlctest` rejects in ANY group, required or
      extra, makes `main` raise instead of reporting the image as failed. */
  lemma MalformedPayloadCrashes<P, H>(req: seq<Row<P, H>>, extra: seq<Row<P, H>>, row: Row<P, H>)
    requires row in req || row in extra
    requires Accounted(row) && row.vlcBits.None?
    ensures Verdict(req, extra).Failure?
  {
    if row in req {
      var i :| 0 <= i < |req| && req[i] == row;
    } else {
      var i :| 0 <= i < |extra| && extra[i] == row;
    }
  }

  /** A required image within budget and an extra image with a malformed
      payload: the run should pass with the extra image marked failed, but the
      loop of `main` raises on the extra image. */
  lemma ExtraMalformedScenario()
    ensures
      var a := Row("imgA", [], EncodeOutput(0, 0, 1000), [], [], Some(29000), Some(30000));
      var b := Row("imgB", [], EncodeOutput(0, 0, 1000), [], [], None, None);
      && Verdict([a], [b]) == Failure(TotalBitsMissing(false, 0))
      && !Intended([a], [b]).failed
      && Intended([a], [b]).required["imgA"] == Entry(false, Some(30000))
      && Intended([a], [b]).extra["imgB"] == Entry(true, None)
  {
    var a := Row("imgA", [], EncodeOutput(0, 0, 1000), [], [], Some(29000), Some(30000));
    var b := Row("imgB", [], EncodeOutput(0, 0, 1000), [], [], None, None);
    assert FirstFalse(TotalsKnown([a])) == None;
    assert FirstFalse(TotalsKnown([b])) == Some(0);
    assert [a][..0] == [] && [b][..0] == [];
  }

  /** In the intended report an image whose payload `vlctest` rejects is
      recorded under its name as failed, with a null total. */
  lemma IntendedRecordsMalformed<P, H>(req: seq<Row<P, H>>, extra: seq<Row<P, H>>, i: nat)
    requires i < |extra| && Accounted(extra[i]) && extra[i].vlcBits.None?
    requires forall j :: i < j < |extra| ==> extra[j].name != extra[i].name
    ensures extra[i].name in Intended(req, extra).extra
    ensures Intended(req, extra).extra[extra[i].name] == Entry(true, None)
  {
    JsonLastWins(extra, i);
  }

  /** The same in the required group, where such an image also makes the
      whole run fail. */
  lemma IntendedRecordsMalformedRequired<P, H>(req: seq<Row<P, H>>, extra: seq<Row<P, H>>, i: nat)
    requires i < |req| && Accounted(req[i]) && req[i].vlcBits.None?
    requires forall j :: i < j < |req| ==> req[j].name != req[i].name
    ensures req[i].name in Intended(req, extra).required
    ensures Intended(req, extra).required[req[i].name] == Entry(true, None)
    ensures Intended(req, extra).failed
  {
    JsonLastWins(req, i);
  }
}
