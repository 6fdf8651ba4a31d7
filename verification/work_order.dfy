/**
 * The work order row: its field defaults and the `PartIds` accessor, which
 * reads and writes the list of part ids through the JSON text kept in
 * `PartIdsJson`. The JSON handled is the compact form System.Text.Json
 * writes for a list of 32-bit integers: `[1,-2,3]`.
 */
module WorkOrderModel {
  import opened Wrappers
  import Decimal
  import Text

  /** A C# `int`. */
  type Int32 = x: int | -0x8000_0000 <= x < 0x8000_0000

  datatype WorkOrder = WorkOrder(
    id: int,
    deviceId: int,
    serviceId: int,
    repairProgramId: int,
    currentStatus: string,
    partIdsJson: Option<string>,
    createdAt: int,
    updatedAt: Option<int>)

  /** A freshly constructed work order at time `now`: every field at its declared default. */
  function NewWorkOrder(now: int): (w: WorkOrder)
    ensures w.currentStatus == "Pending"
    ensures w.partIdsJson == Some("[]")
    ensures w.createdAt == now && w.updatedAt.None?
    ensures w.id == 0 && w.deviceId == 0 && w.serviceId == 0 && w.repairProgramId == 0
  {
    WorkOrder(0, 0, 0, 0, "Pending", Some("[]"), now, None)
  }

  /** What deserializing the JSON text of a list yields: a list, a JSON `null`, or an exception. */
  datatype IdList = List(ids: seq<Int32>) | JsonNull | JsonError

  /** The decimal texts of a list of integers. */
  function ShowAll(ids: seq<Int32>): (r: seq<string>)
    ensures |r| == |ids|
    ensures forall i :: 0 <= i < |r| ==> r[i] == Decimal.Show(ids[i])
  {
    if |ids| == 0 then [] else [Decimal.Show(ids[0])] + ShowAll(ids[1..])
  }

  /** Reads each text as a 32-bit integer; fails if any is not one. */
  function ParseAll(texts: seq<string>): (r: Option<seq<Int32>>)
    ensures r.Some? ==> |r.value| == |texts|
    ensures r.Some? ==> forall i :: 0 <= i < |texts| ==> Decimal.Parse(texts[i]) == Some(r.value[i] as int)
  {
    if |texts| == 0 then Some([])
    else
      match Decimal.Parse(texts[0])
      case None => None
      case Some(n) =>
        if !(-0x8000_0000 <= n < 0x8000_0000) then None
        else
          match ParseAll(texts[1..])
          case None => None
          case Some(rest) => Some([n as Int32] + rest)
  }

  /** `JsonSerializer.Serialize(ids)`. */
  function Serialize(ids: seq<Int32>): (json: string)
    ensures |json| >= 2 && json[0] == '[' && json[|json| - 1] == ']'
  {
    "[" + (if |ids| == 0 then "" else Text.Join(ShowAll(ids), ',')) + "]"
  }

  /** `JsonSerializer.Deserialize<List<int>>(json)` for compact JSON. */
  function Deserialize(json: string): (r: IdList)
    ensures r.JsonNull? <==> json == "null"
  {
    if json == "null" then JsonNull
    else if |json| >= 2 && json[0] == '[' && json[|json| - 1] == ']' then
      var inner := json[1..|json| - 1];
      if |inner| == 0 then List([])
      else
        match ParseAll(Text.Split(inner, ','))
        case None => JsonError
        case Some(ids) => List(ids)
    else JsonError
  }

  /** The `PartIds` getter: a null or empty text reads as the empty list. */
  function PartIds(w: WorkOrder): (r: IdList)
    ensures w.partIdsJson.None? || w.partIdsJson == Some("") ==> r == List([])
  {
    match w.partIdsJson
    case None => List([])
    case Some(json) => if json == "" then List([]) else Deserialize(json)
  }

  /** The `PartIds` setter: stores the serialized list and touches no other field. */
  function SetPartIds(w: WorkOrder, ids: seq<Int32>): (r: WorkOrder)
    ensures r.(partIdsJson := w.partIdsJson) == w
    ensures r.partIdsJson.Some? && r.partIdsJson.value != ""
  {
    w.(partIdsJson := Some(Serialize(ids)))
  }

  /** Reading back the texts of a list of integers gives the list. */
  lemma {:induction false} ParseShowAll(ids: seq<Int32>)
    ensures ParseAll(ShowAll(ids)) == Some(ids)
  {
    if |ids| > 0 {
      Decimal.ParseShow(ids[0]);
      ParseShowAll(ids[1..]);
      assert ShowAll(ids)[1..] == ShowAll(ids[1..]);
      assert ids == [ids[0]] + ids[1..];
    }
  }

  /** Deserializing what was serialized gives back the list. */
  lemma DeserializeSerialize(ids: seq<Int32>)
    ensures Deserialize(Serialize(ids)) == List(ids)
  {
    var json := Serialize(ids);
    if |ids| > 0 {
      var texts := ShowAll(ids);
      assert json[1..|json| - 1] == Text.Join(texts, ',');
      assert forall i :: 0 <= i < |texts| ==> ',' !in texts[i];
      Text.SplitJoin(texts, ',');
      ParseShowAll(ids);
    } else {
      assert json == "[]";
    }
  }

  /** Setting `PartIds` and reading it back returns the same list. */
  lemma PartIdsRoundTrip(w: WorkOrder, ids: seq<Int32>)
    ensures PartIds(SetPartIds(w, ids)) == List(ids)
  {
    DeserializeSerialize(ids);
  }

  /** A new work order starts with no parts. */
  lemma NewWorkOrderHasNoParts(now: int)
    ensures PartIds(NewWorkOrder(now)) == List([])
  {
  }
}
