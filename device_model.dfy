/** The `Device` table (backend/models/Device.js) as an in-memory store: the
    records in insertion order, the auto-increment counter, and a log of the
    store's writes and of the broadcasts that follow them. */
module DeviceModel {

  import opened Optional
  import opened DeviceValidation

  /** The status enumeration `ATIVO` / `INATIVO`; a new record is `Ativo`. */
  datatype Status = Ativo | Inativo
  {
    /** The other status value. */
    function Toggled(): (r: Status)
      ensures r != this
    {
      if Ativo? then Inativo else Ativo
    }
  }

  /** A `created_at` value, fixed at insert; the clock itself is not modelled. */
  type Timestamp = nat

  /** Declared length of the `name` column. SQLite does not enforce it; the
      bound the table keeps is the one the create route checks, in the
      length validator's count. */
  const NameColumnLength := 100

  /** One row. `description` is the nullable column. */
  datatype Device = Device(id: nat, name: string, mac: string, status: Status,
                           createdAt: Timestamp, description: Option<string>)

  /** The two broadcast channels, `device:created` and `device:status`. */
  datatype EventName = DeviceCreated | DeviceStatus

  /** A write of a record to the table, or a broadcast of a record. */
  datatype Effect = Persisted(device: Device) | Emitted(event: EventName, device: Device)

  /** A snapshot of the store. */
  datatype Table = Table(rows: seq<Device>, nextId: nat, log: seq<Effect>)

  /** The column constraints: ids are positive, below the counter and
      ascending in store order (hence never shared and never reused); no two
      rows share a mac; names fit the column as the length validator
      counts them. */
  predicate RowsConsistent(rows: seq<Device>, nextId: nat)
  {
    && 1 <= nextId
    && (forall i :: 0 <= i < |rows| ==> 1 <= rows[i].id < nextId && CountedLength(rows[i].name) <= NameColumnLength)
    && (forall i, j :: 0 <= i < j < |rows| ==> rows[i].id < rows[j].id)
    && (forall i, j :: 0 <= i < j < |rows| ==> rows[i].mac != rows[j].mac)
  }

  /** Every broadcast directly follows the write of the very record it
      carries: nothing is announced before it is stored. */
  predicate EmitsFollowWrites(log: seq<Effect>)
  {
    forall i :: 0 <= i < |log| && log[i].Emitted? ==> 0 < i && log[i - 1] == Persisted(log[i].device)
  }

  predicate Consistent(t: Table)
  {
    RowsConsistent(t.rows, t.nextId) && EmitsFollowWrites(t.log)
  }

  /** `findOne({ where: { mac } })`: the position of the row holding `mac`. */
  function LookupMac(rows: seq<Device>, mac: string): (r: Option<nat>)
    ensures r.Some? ==> r.value < |rows| && rows[r.value].mac == mac
    ensures r.None? <==> forall j :: 0 <= j < |rows| ==> rows[j].mac != mac
  {
    if rows == [] then None
    else if rows[0].mac == mac then Some(0)
    else match LookupMac(rows[1..], mac)
      case None => None
      case Some(k) => Some(k + 1)
  }

  /** `findByPk(id)`: the position of the row whose primary key is `id`. */
  function LookupId(rows: seq<Device>, id: nat): (r: Option<nat>)
    ensures r.Some? ==> r.value < |rows| && rows[r.value].id == id
    ensures r.None? <==> forall j :: 0 <= j < |rows| ==> rows[j].id != id
  {
    if rows == [] then None
    else if rows[0].id == id then Some(0)
    else match LookupId(rows[1..], id)
      case None => None
      case Some(k) => Some(k + 1)
  }

  /** With ascending ids, the row found by id is the only one with that id. */
  lemma LookupIdUnique(rows: seq<Device>, nextId: nat, k: nat)
    requires RowsConsistent(rows, nextId)
    requires k < |rows|
    ensures LookupId(rows, rows[k].id) == Some(k)
  {
  }

  /** The row at `k` with its status flipped; every other field and row kept. */
  function ToggleAt(rows: seq<Device>, k: nat): (r: seq<Device>)
    requires k < |rows|
    ensures |r| == |rows|
  {
    rows[k := rows[k].(status := rows[k].status.Toggled())]
  }

  /** Toggling one row touches its status only, and toggling twice restores it. */
  lemma ToggleAtInvolution(rows: seq<Device>, k: nat)
    requires k < |rows|
    ensures forall j :: 0 <= j < |rows| && j != k ==> ToggleAt(rows, k)[j] == rows[j]
    ensures ToggleAt(rows, k)[k].status != rows[k].status
    ensures ToggleAt(rows, k)[k] == rows[k].(status := ToggleAt(rows, k)[k].status)
    ensures ToggleAt(ToggleAt(rows, k), k) == rows
  {
    var once := ToggleAt(rows, k);
    assert once[k].status.Toggled() == rows[k].status by {
      assert once[k].status == rows[k].status.Toggled();
    }
  }

  /** Appending a row with the counter's id and an unused mac keeps the
      column constraints. */
  lemma InsertKeepsConsistent(rows: seq<Device>, nextId: nat, d: Device)
    requires RowsConsistent(rows, nextId)
    requires d.id == nextId && CountedLength(d.name) <= NameColumnLength
    requires LookupMac(rows, d.mac).None?
    ensures RowsConsistent(rows + [d], nextId + 1)
  {
  }

  /** Flipping a status keeps the column constraints. */
  lemma ToggleKeepsConsistent(rows: seq<Device>, nextId: nat, k: nat)
    requires RowsConsistent(rows, nextId)
    requires k < |rows|
    ensures RowsConsistent(ToggleAt(rows, k), nextId)
  {
  }

  /** A write followed by the broadcast of the same record keeps every
      broadcast preceded by its write. */
  lemma WriteThenEmitKeepsOrder(log: seq<Effect>, d: Device, event: EventName)
    requires EmitsFollowWrites(log)
    ensures EmitsFollowWrites(log + [Persisted(d)] + [Emitted(event, d)])
  {
    var l := log + [Persisted(d)] + [Emitted(event, d)];
    forall i | 0 <= i < |l| && l[i].Emitted?
      ensures 0 < i && l[i - 1] == Persisted(l[i].device)
    {
      if i < |log| {
        assert l[i] == log[i] && l[i - 1] == log[i - 1];
      }
    }
  }

  /** The store. Methods mirror the table operations the routes use; each
      write is logged, and a broadcast may only follow the write of the
      record it carries. */
  class DeviceStore {
    var rows: seq<Device>
    var nextId: nat
    var log: seq<Effect>

    function Snapshot(): Table
      reads this
    {
      Table(rows, nextId, log)
    }

    ghost predicate Valid()
      reads this
    {
      Consistent(Snapshot())
    }

    /** An empty table whose first id will be 1. */
    constructor ()
      ensures Valid()
      ensures rows == [] && nextId == 1 && log == []
    {
      rows, nextId, log := [], 1, [];
    }

    /** `Device.create`: a fresh id, status `Ativo`, the given fields. The
        mac must be unused: the unique constraint would refuse it. */
    method Create(name: string, mac: string, description: Option<string>, now: Timestamp) returns (d: Device)
      requires Valid()
      requires CountedLength(name) <= NameColumnLength
      requires LookupMac(rows, mac).None?
      modifies this
      ensures Valid()
      ensures d == Device(old(nextId), name, mac, Ativo, now, description)
      ensures rows == old(rows) + [d] && nextId == old(nextId) + 1
      ensures log == old(log) + [Persisted(d)]
    {
      d := Device(nextId, name, mac, Ativo, now, description);
      InsertKeepsConsistent(rows, nextId, d);
      rows := rows + [d];
      nextId := nextId + 1;
      log := log + [Persisted(d)];
    }

    /** `device.status = ...; device.save()`: flips the status of row `k`. */
    method SaveToggled(k: nat) returns (d: Device)
      requires Valid()
      requires k < |rows|
      modifies this
      ensures Valid()
      ensures d == old(rows[k]).(status := old(rows[k]).status.Toggled())
      ensures rows == ToggleAt(old(rows), k) && nextId == old(nextId)
      ensures log == old(log) + [Persisted(d)]
    {
      d := rows[k].(status := rows[k].status.Toggled());
      ToggleKeepsConsistent(rows, nextId, k);
      rows := rows[k := d];
      log := log + [Persisted(d)];
    }

    /** `io.emit(event, d)`, allowed only right after `d` was written. */
    method Emit(event: EventName, d: Device)
      requires Valid()
      requires |log| > 0 && log[|log| - 1] == Persisted(d)
      modifies this
      ensures Valid()
      ensures rows == old(rows) && nextId == old(nextId)
      ensures log == old(log) + [Emitted(event, d)]
    {
      log := log + [Emitted(event, d)];
    }
  }
}
