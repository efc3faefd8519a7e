/** The three request handlers of backend/routes/devices.js. Each is a spec
    function from a store snapshot to the response and the next snapshot,
    and a method over `DeviceStore` that performs the same steps in the
    source's order and is proved to agree with it. The description
    generator is the nondeterministic input `ai`: `Some(text)` when it
    answered, `None` when it failed in any way. */
module DeviceRoutes {

  import opened Optional
  import opened JsString
  import opened DeviceValidation
  import opened DeviceModel

  datatype Body =
    | DeviceJson(device: Device)
    | DeviceListJson(devices: seq<Device>)
    | ErrorsJson(errors: seq<FieldError>)
    | ErrorJson(error: string)

  datatype Response = Response(status: nat, body: Body)

  const MacNotUnique := "MAC address must be unique"
  const InvalidId := "Invalid device ID"
  const NotFound := "Device not found"

  /** The description used when the generator fails. */
  function FallbackDescription(name: string, mac: string): (r: string)
    ensures |r| == 21 + |name| + |mac|
    ensures r[12..12 + |name|] == name && r[|r| - |mac|..] == mac
  {
    "Dispositivo " + name + " com MAC " + mac
  }

  /** The generator's text, trimmed, or the fallback. */
  function ResolveDescription(ai: Option<string>, name: string, mac: string): (r: string)
    ensures ai.Some? ==> |r| <= |ai.value|
    ensures ai.None? ==> |r| == 21 + |name| + |mac|
  {
    match ai
    case Some(text) => Trim(text)
    case None => FallbackDescription(name, mac)
  }

  /** POST /: validate, refuse a taken mac, resolve the description, insert,
      broadcast `device:created`, answer 201. */
  function Post(t: Table, body: CreateBody, ai: Option<string>, now: Timestamp): (r: (Response, Table))
    ensures r.0.status == 201 || (r.0.status == 400 && r.1 == t)
  {
    PostChecked(t, ValidateCreate(body), ai, now)
  }

  /** POST / once the validation chain has run. */
  function PostChecked(t: Table, checked: Validated, ai: Option<string>, now: Timestamp): (r: (Response, Table))
    ensures r.0.status == 201 <==> checked.Accepted? && LookupMac(t.rows, checked.mac).None?
    ensures r.0.status != 201 ==> r.0.status == 400 && r.1 == t
  {
    match checked
    case Rejected(errors) => (Response(400, ErrorsJson(errors)), t)
    case Accepted(name, mac) =>
      if LookupMac(t.rows, mac).Some? then (Response(400, ErrorJson(MacNotUnique)), t)
      else
        var d := Device(t.nextId, name, mac, Ativo, now, Some(ResolveDescription(ai, name, mac)));
        (Response(201, DeviceJson(d)),
         Table(t.rows + [d], t.nextId + 1, t.log + [Persisted(d)] + [Emitted(DeviceCreated, d)]))
  }

  /** PATCH /:id/status: check the id text, look the row up, flip its
      status, save, broadcast `device:status`, answer 200. */
  function Patch(t: Table, id: string): (r: (Response, Table))
    ensures r.0.status == 200 || r.0.status == 400 || r.0.status == 404
    ensures r.0.status != 200 ==> r.1 == t
    ensures |r.1.rows| == |t.rows| && r.1.nextId == t.nextId
  {
    if !IsDecimalId(id) then (Response(400, ErrorJson(InvalidId)), t)
    else match LookupId(t.rows, DecimalValue(id))
      case None => (Response(404, ErrorJson(NotFound)), t)
      case Some(k) =>
        var d := t.rows[k].(status := t.rows[k].status.Toggled());
        (Response(200, DeviceJson(d)),
         Table(ToggleAt(t.rows, k), t.nextId, t.log + [Persisted(d)] + [Emitted(DeviceStatus, d)]))
  }

  /** What the routes keep true of the table beyond its column constraints:
      every stored mac has the accepted shape and is upper-case. */
  predicate StoredMacsCanonical(rows: seq<Device>)
  {
    forall i :: 0 <= i < |rows| ==> IsMacShape(rows[i].mac) && AsciiUpperCase(rows[i].mac) == rows[i].mac
  }

  // ---------------------------------------------------------------- handlers

  /** The successful create, stated once for the handler. */
  lemma PostCheckedInserts(t: Table, name: string, mac: string, ai: Option<string>, now: Timestamp)
    requires LookupMac(t.rows, mac).None?
    ensures var d := Device(t.nextId, name, mac, Ativo, now, Some(ResolveDescription(ai, name, mac)));
            PostChecked(t, Accepted(name, mac), ai, now) ==
            (Response(201, DeviceJson(d)), Table(t.rows + [d], t.nextId + 1, t.log + [Persisted(d)] + [Emitted(DeviceCreated, d)]))
  {
  }

  method CreateDevice(store: DeviceStore, body: CreateBody, ai: Option<string>, now: Timestamp) returns (res: Response)
    requires store.Valid()
    modifies store
    ensures store.Valid()
    ensures (res, store.Snapshot()) == Post(old(store.Snapshot()), body, ai, now)
  {
    ghost var before := store.Snapshot();
    var checked := ValidateCreate(body);
    assert Post(before, body, ai, now) == PostChecked(before, checked, ai, now);
    if checked.Rejected? {
      return Response(400, ErrorsJson(checked.errors));
    }
    var name, mac := checked.name, checked.mac;
    assert CountedLength(name) <= NameColumnLength by {
      AcceptedFields(body);
    }
    var existing := LookupMac(store.rows, mac);
    if existing.Some? {
      return Response(400, ErrorJson(MacNotUnique));
    }
    var description := "";
    match ai {
      case Some(text) =>
        description := Trim(text);
      case None =>
        description := FallbackDescription(name, mac);
    }
    assert description == ResolveDescription(ai, name, mac);
    assert checked == Accepted(name, mac);
    PostCheckedInserts(before, name, mac, ai, now);
    var d := store.Create(name, mac, Some(description), now);
    store.Emit(DeviceCreated, d);
    res := Response(201, DeviceJson(d));
    assert store.Snapshot() == Table(before.rows + [d], before.nextId + 1, before.log + [Persisted(d)] + [Emitted(DeviceCreated, d)]);
  }

  method ListDevices(store: DeviceStore) returns (res: Response)
    requires store.Valid()
    ensures res.status == 200 && res.body == DeviceListJson(store.rows)
    ensures forall i, j :: 0 <= i < j < |res.body.devices| ==>
              res.body.devices[i].id < res.body.devices[j].id && res.body.devices[i].mac != res.body.devices[j].mac
  {
    res := Response(200, DeviceListJson(store.rows));
  }

  method ToggleStatus(store: DeviceStore, id: string) returns (res: Response)
    requires store.Valid()
    modifies store
    ensures store.Valid()
    ensures (res, store.Snapshot()) == Patch(old(store.Snapshot()), id)
  {
    if !IsDecimalId(id) {
      return Response(400, ErrorJson(InvalidId));
    }
    var found := LookupId(store.rows, DecimalValue(id));
    if found.None? {
      return Response(404, ErrorJson(NotFound));
    }
    var d := store.SaveToggled(found.value);
    store.Emit(DeviceStatus, d);
    res := Response(200, DeviceJson(d));
    assert store.Snapshot() == Table(ToggleAt(old(store.rows), found.value), old(store.nextId), old(store.log) + [Persisted(d)] + [Emitted(DeviceStatus, d)]);
  }

  // ---------------------------------------------------------------- properties of POST /

  /** A request the validation chain rejects is answered 400 with its error
      list, whatever the table holds, and the table and log stay as they were. */
  lemma PostRejectsInvalid(t: Table, body: CreateBody, ai: Option<string>, now: Timestamp)
    requires !NameLengthOk(body.name) || !MacOk(body.mac)
    ensures var errors := ValidateCreate(body).errors;
            Post(t, body, ai, now) == (Response(400, ErrorsJson(errors)), t) && errors != []
  {
    RejectedErrors(body);
  }

  /** The three answers of POST / and when each is given; only 201 changes
      the table or the log. */
  lemma PostOutcomes(t: Table, body: CreateBody, ai: Option<string>, now: Timestamp)
    ensures var (res, t') := Post(t, body, ai, now);
            var v := ValidateCreate(body);
            && (res.status == 201 <==> v.Accepted? && LookupMac(t.rows, v.mac).None?)
            && (res.status != 201 ==> res.status == 400 && t' == t)
            && (res == Response(400, ErrorJson(MacNotUnique)) <==> v.Accepted? && LookupMac(t.rows, v.mac).Some?)
  {
  }

  /** A successful create appends exactly one record, with a fresh id, status
      `Ativo`, the sanitised name, the upper-cased mac and the resolved
      description; it writes that record, then broadcasts it, and answers
      201 with it. */
  lemma PostAppendsRecord(t: Table, body: CreateBody, ai: Option<string>, now: Timestamp)
    requires Consistent(t)
    requires Post(t, body, ai, now).0.status == 201
    ensures var (res, t') := Post(t, body, ai, now);
            && res.body.DeviceJson?
            && var d := res.body.device;
            && (forall i :: 0 <= i < |t.rows| ==> t.rows[i].id != d.id)
            && d.status == Ativo
            && d.name == Sanitize(body.name) && CountedLength(d.name) <= NameMaxLength
            && d.mac == AsciiUpperCase(body.mac.s) && IsMacShape(d.mac)
            && d.description == Some(ResolveDescription(ai, d.name, d.mac))
            && d.createdAt == now
            && t'.rows == t.rows + [d] && t'.nextId > d.id
            && t'.log == t.log + [Persisted(d)] + [Emitted(DeviceCreated, d)]
  {
    AcceptedFields(body);
  }

  /** POST / keeps the column constraints, the write-before-broadcast order
      and the canonical form of stored addresses. */
  lemma PostKeepsInvariant(t: Table, body: CreateBody, ai: Option<string>, now: Timestamp)
    requires Consistent(t) && StoredMacsCanonical(t.rows)
    ensures Consistent(Post(t, body, ai, now).1) && StoredMacsCanonical(Post(t, body, ai, now).1.rows)
  {
    var v := ValidateCreate(body);
    if v.Accepted? && LookupMac(t.rows, v.mac).None? {
      AcceptedFields(body);
      var d := Device(t.nextId, v.name, v.mac, Ativo, now, Some(ResolveDescription(ai, v.name, v.mac)));
      PostCheckedInserts(t, v.name, v.mac, ai, now);
      InsertKeepsConsistent(t.rows, t.nextId, d);
      WriteThenEmitKeepsOrder(t.log, d, DeviceCreated);
    }
  }

  /** The description generator cannot change the answer's status or which
      record is stored, only its description; when it fails, the description
      is the fallback built from the stored name and mac. */
  lemma DescriptionNeverFailsCreate(t: Table, body: CreateBody, text: string, now: Timestamp)
    ensures Post(t, body, None, now).0.status == Post(t, body, Some(text), now).0.status
    ensures var (res, _) := Post(t, body, None, now);
            res.status == 201 ==>
              res.body.DeviceJson? &&
              res.body.device.description == Some(FallbackDescription(res.body.device.name, res.body.device.mac))
    ensures var (res, _) := Post(t, body, Some(text), now);
            res.status == 201 ==> res.body.DeviceJson? && res.body.device.description == Some(Trim(text))
  {
  }

  /** Once a record holds an address, a second create whose address
      upper-cases to the same text is answered 400 "MAC address must be
      unique" and changes nothing. */
  lemma DuplicateMacRejected(t: Table, first: CreateBody, ai: Option<string>, now: Timestamp,
                             second: CreateBody, ai2: Option<string>, now2: Timestamp)
    requires Post(t, first, ai, now).0.status == 201
    requires ValidateCreate(second).Accepted?
    requires AsciiUpperCase(second.mac.s) == AsciiUpperCase(first.mac.s)
    ensures var t1 := Post(t, first, ai, now).1;
            Post(t1, second, ai2, now2) == (Response(400, ErrorJson(MacNotUnique)), t1)
  {
    var v := ValidateCreate(first);
    var d := Device(t.nextId, v.name, v.mac, Ativo, now, Some(ResolveDescription(ai, v.name, v.mac)));
    PostCheckedInserts(t, v.name, v.mac, ai, now);
    var t1 := Post(t, first, ai, now).1;
    assert t1.rows[|t.rows|] == d;
    assert LookupMac(t1.rows, ValidateCreate(second).mac).Some?;
  }

  // ---------------------------------------------------------------- properties of PATCH /:id/status

  /** The three answers of PATCH /:id/status and when each is given; an id
      that is not a digit string is refused before any lookup, so the answer
      does not depend on the table; only 200 changes the table or the log. */
  lemma PatchOutcomes(t: Table, id: string)
    ensures var (res, t') := Patch(t, id);
            && (res.status == 400 <==> !IsDecimalId(id))
            && (!IsDecimalId(id) ==> res == Response(400, ErrorJson(InvalidId)))
            && (res.status == 404 <==> IsDecimalId(id) && forall j :: 0 <= j < |t.rows| ==> t.rows[j].id != DecimalValue(id))
            && (res.status == 200 <==> IsDecimalId(id) && exists j :: 0 <= j < |t.rows| && t.rows[j].id == DecimalValue(id))
            && (res.status != 200 ==> t' == t)
  {
    if IsDecimalId(id) {
      var r := LookupId(t.rows, DecimalValue(id));
      if r.Some? {
        assert t.rows[r.value].id == DecimalValue(id);
      }
    }
  }

  /** A successful toggle flips the status of the one record with that id and
      leaves every other field of it and every other record as it was; it
      writes the record, then broadcasts it, and answers 200 with it. */
  lemma PatchFlipsOneRecord(t: Table, id: string)
    requires Consistent(t)
    requires Patch(t, id).0.status == 200
    ensures var (res, t') := Patch(t, id);
            && |t'.rows| == |t.rows| && t'.nextId == t.nextId
            && (forall j :: 0 <= j < |t.rows| && t.rows[j].id != DecimalValue(id) ==> t'.rows[j] == t.rows[j])
            && (forall j :: 0 <= j < |t.rows| && t.rows[j].id == DecimalValue(id) ==>
                  t'.rows[j] == t.rows[j].(status := t.rows[j].status.Toggled()) &&
                  res == Response(200, DeviceJson(t'.rows[j])) &&
                  t'.log == t.log + [Persisted(t'.rows[j])] + [Emitted(DeviceStatus, t'.rows[j])])
  {
    var k := LookupId(t.rows, DecimalValue(id)).value;
    ToggleAtInvolution(t.rows, k);
    forall j | 0 <= j < |t.rows| && t.rows[j].id == DecimalValue(id) ensures j == k {
      LookupIdUnique(t.rows, t.nextId, j);
    }
  }

  /** PATCH /:id/status keeps the column constraints, the write-before-
      broadcast order and the canonical form of stored addresses. */
  lemma PatchKeepsInvariant(t: Table, id: string)
    requires Consistent(t) && StoredMacsCanonical(t.rows)
    ensures Consistent(Patch(t, id).1) && StoredMacsCanonical(Patch(t, id).1.rows)
  {
    if IsDecimalId(id) && LookupId(t.rows, DecimalValue(id)).Some? {
      var k := LookupId(t.rows, DecimalValue(id)).value;
      var d := t.rows[k].(status := t.rows[k].status.Toggled());
      ToggleKeepsConsistent(t.rows, t.nextId, k);
      WriteThenEmitKeepsOrder(t.log, d, DeviceStatus);
      ToggleAtInvolution(t.rows, k);
    }
  }

  /** Toggling the same id twice restores every record: the second toggle
      finds the same record and flips it back. */
  lemma PatchTwiceRestores(t: Table, id: string)
    requires Consistent(t)
    ensures var (res1, t1) := Patch(t, id);
            var (res2, t2) := Patch(t1, id);
            t2.rows == t.rows && t2.nextId == t.nextId && res2.status == res1.status
  {
    if IsDecimalId(id) && LookupId(t.rows, DecimalValue(id)).Some? {
      var k := LookupId(t.rows, DecimalValue(id)).value;
      var t1 := Patch(t, id).1;
      ToggleAtInvolution(t.rows, k);
      ToggleKeepsConsistent(t.rows, t.nextId, k);
      LookupIdUnique(t1.rows, t1.nextId, k);
    }
  }

  /** Every stored record can be addressed: the decimal text of its id passes
      the id check and toggles that very record. */
  lemma EveryRecordAddressable(t: Table, k: nat)
    requires RowsConsistent(t.rows, t.nextId)
    requires k < |t.rows|
    ensures var d := t.rows[k].(status := t.rows[k].status.Toggled());
            Patch(t, DecimalString(t.rows[k].id)) ==
              (Response(200, DeviceJson(d)), Table(ToggleAt(t.rows, k), t.nextId, t.log + [Persisted(d)] + [Emitted(DeviceStatus, d)]))
  {
    LookupIdUnique(t.rows, t.nextId, k);
  }

  // ---------------------------------------------------------------- worked examples

  /** The example requests below are accepted unchanged. */
  lemma ExampleAccepted(name: string, mac: string)
    requires name in {"Router", "Sensor1", "a", "b"}
    requires mac in {"AA:BB:CC:DD:EE:FF", "AA-BB-CC-DD-EE-FF", "00:11:22:33:44:55"}
    ensures ValidateCreate(CreateBody(Text(name), Text(mac))) == Accepted(name, mac)
  {
    forall k | 0 <= k < |mac| ensures FitsPosition(mac[k], k) && !IsAsciiLower(mac[k]) {
    }
    CanonicalBodyAccepted(name, mac);
  }

  /** Right after a successful create, toggling the new record's id answers
      200 and flips the status of that record only. */
  lemma CreateThenToggle(t: Table, body: CreateBody, ai: Option<string>, now: Timestamp)
    requires Consistent(t)
    requires Post(t, body, ai, now).0.status == 201
    ensures var (res1, t1) := Post(t, body, ai, now);
            res1.body.DeviceJson? &&
            var d := res1.body.device.(status := Inativo);
            Patch(t1, DecimalString(t.nextId)) ==
              (Response(200, DeviceJson(d)), Table(t.rows + [d], t1.nextId, t1.log + [Persisted(d)] + [Emitted(DeviceStatus, d)]))
  {
    var v := ValidateCreate(body);
    assert v.Accepted? && LookupMac(t.rows, v.mac).None?;
    var d := Device(t.nextId, v.name, v.mac, Ativo, now, Some(ResolveDescription(ai, v.name, v.mac)));
    assert CountedLength(d.name) <= NameColumnLength by {
      AcceptedFields(body);
    }
    PostCheckedInserts(t, v.name, v.mac, ai, now);
    var t1 := Table(t.rows + [d], t.nextId + 1, t.log + [Persisted(d)] + [Emitted(DeviceCreated, d)]);
    assert Post(t, body, ai, now) == (Response(201, DeviceJson(d)), t1);
    InsertKeepsConsistent(t.rows, t.nextId, d);
    var k := |t.rows|;
    assert t1.rows[k] == d;
    EveryRecordAddressable(t1, k);
    var d' := d.(status := Inativo);
    assert ToggleAt(t1.rows, k) == t.rows + [d'];
  }

  /** Creating "Router" with AA:BB:CC:DD:EE:FF answers 201 and appends an
      `Ativo` record with the next id; toggling that id answers 200, and the
      listing then holds the same record with `Inativo`. */
  lemma RouterScenario(t: Table, body: CreateBody, ai: Option<string>, now: Timestamp)
    requires Consistent(t)
    requires body == CreateBody(Text("Router"), Text("AA:BB:CC:DD:EE:FF"))
    requires forall j :: 0 <= j < |t.rows| ==> t.rows[j].mac != "AA:BB:CC:DD:EE:FF"
    ensures var router := Device(t.nextId, "Router", "AA:BB:CC:DD:EE:FF", Ativo, now,
                                 Some(ResolveDescription(ai, "Router", "AA:BB:CC:DD:EE:FF")));
            var (res1, t1) := Post(t, body, ai, now);
            var (res2, t2) := Patch(t1, DecimalString(t.nextId));
            && res1 == Response(201, DeviceJson(router)) && t1.rows == t.rows + [router]
            && res2 == Response(200, DeviceJson(router.(status := Inativo)))
            && t2.rows == t.rows + [router.(status := Inativo)]
  {
    var name, mac := "Router", "AA:BB:CC:DD:EE:FF";
    var d := Device(t.nextId, name, mac, Ativo, now, Some(ResolveDescription(ai, name, mac)));
    var t1 := Table(t.rows + [d], t.nextId + 1, t.log + [Persisted(d)] + [Emitted(DeviceCreated, d)]);
    assert Post(t, body, ai, now) == (Response(201, DeviceJson(d)), t1) by {
      ExampleAccepted(name, mac);
      PostCheckedInserts(t, name, mac, ai, now);
    }
    CreateThenToggle(t, body, ai, now);
  }

  /** When the generator fails, creating "Sensor1" with 00:11:22:33:44:55
      still answers 201, with the fallback description. */
  lemma SensorFallbackScenario(t: Table, now: Timestamp)
    requires forall j :: 0 <= j < |t.rows| ==> t.rows[j].mac != "00:11:22:33:44:55"
    ensures var (res, _) := Post(t, CreateBody(Text("Sensor1"), Text("00:11:22:33:44:55")), None, now);
            && res.status == 201 && res.body.DeviceJson?
            && res.body.device.description == Some("Dispositivo " + "Sensor1" + " com MAC " + "00:11:22:33:44:55")
  {
    var name, mac := "Sensor1", "00:11:22:33:44:55";
    ExampleAccepted(name, mac);
    PostCheckedInserts(t, name, mac, None, now);
  }

  /** Separators are not normalised: the same octets written with hyphens are
      a different address, so both creates succeed. */
  lemma SeparatorsDistinguishAddresses(t: Table, now: Timestamp)
    requires forall j :: 0 <= j < |t.rows| ==> t.rows[j].mac != "AA-BB-CC-DD-EE-FF"
    requires forall j :: 0 <= j < |t.rows| ==> t.rows[j].mac != "AA:BB:CC:DD:EE:FF"
    ensures var (res1, t1) := Post(t, CreateBody(Text("a"), Text("AA:BB:CC:DD:EE:FF")), None, now);
            var (res2, _) := Post(t1, CreateBody(Text("b"), Text("AA-BB-CC-DD-EE-FF")), None, now);
            res1.status == 201 && res2.status == 201
  {
    var colon, hyphen := "AA:BB:CC:DD:EE:FF", "AA-BB-CC-DD-EE-FF";
    ExampleAccepted("a", colon);
    PostCheckedInserts(t, "a", colon, None, now);
    var d := Device(t.nextId, "a", colon, Ativo, now, Some(ResolveDescription(None, "a", colon)));
    var t1 := Table(t.rows + [d], t.nextId + 1, t.log + [Persisted(d)] + [Emitted(DeviceCreated, d)]);
    assert Post(t, CreateBody(Text("a"), Text(colon)), None, now) == (Response(201, DeviceJson(d)), t1);
    assert colon != hyphen by {
      assert colon[2] != hyphen[2];
    }
    assert LookupMac(t1.rows, hyphen).None? by {
      forall j | 0 <= j < |t1.rows| ensures t1.rows[j].mac != hyphen {
        if j == |t.rows| {
          assert t1.rows[j] == d;
        } else {
          assert t1.rows[j] == t.rows[j];
        }
      }
    }
    ExampleAccepted("b", hyphen);
    PostCheckedInserts(t1, "b", hyphen, None, now);
  }
}
