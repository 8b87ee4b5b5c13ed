/** Telemetry messages: what the controller's monitors put together (client/controller.py, lines 63-115) and what
    the server makes of a posted body (server/cherum/__init__.py, lines 183-227). */
module Messages {
  import opened Options

  /** A JSON value; a text comes with what `float` makes of it, if it accepts it. */
  datatype Json =
    | Null
    | Bool(value: bool)
    | Number(amount: real)
    | Text(text: string, number: Option<real>)
    | List(items: seq<Json>)
    | Object(fields: map<string, Json>)

  /** A posted request: without a valid token, with a body that cannot be read as JSON (in a foreign content type,
      or malformed), or with a JSON value. */
  datatype Post = Unauthorised | Unreadable(foreign: bool) | Posted(body: Json)

  /** What a point of the store records. */
  datatype Reading =
    | Position(drone: Json, latitude: real, longitude: real, altitude: real)
    | Battery(drone: Json, id: Json, percent: Json)
    | FlightMode(drone: Json, mode: Json)
    | Armed(drone: Json, armed: Json)
    | InAir(drone: Json, inAir: Json)

  datatype Outcome = Reply(status: int, reading: Option<Reading>)

  const CONFIRMED := 200
  const INVALID := 400
  const FAILED := 500

  /** Values Python takes for true. */
  predicate Truthy(v: Json)
  {
    match v
    case Null => false
    case Bool(b) => b
    case Number(x) => x != 0.0
    case Text(text, _) => text != ""
    case List(items) => items != []
    case Object(fields) => fields != map[]
  }

  predicate IsText(v: Json, text: string)
  {
    v.Text? && v.text == text
  }

  predicate Occurs(part: string, text: string)
  {
    exists i :: 0 <= i <= |text| && part <= text[i..]
  }

  /** `'type' in data` outside of objects: a part of a text, an item of a list; it raises for the rest. */
  predicate NamesType(v: Json)
  {
    match v
    case Text(text, _) => Occurs("type", text)
    case List(items) => exists item :: item in items && IsText(item, "type")
    case _ => false
  }

  /** `float(v)`, or nothing where it raises. */
  function Float(v: Json): Option<real>
  {
    match v
    case Bool(b) => Some(if b then 1.0 else 0.0)
    case Number(x) => Some(x)
    case Text(_, number) => number
    case _ => None
  }

  /** `v[key]`, or nothing where it raises. */
  function Field(v: Json, key: string): Option<Json>
  {
    if v.Object? && key in v.fields then Some(v.fields[key]) else None
  }

  function FloatField(v: Json, key: string): Option<real>
  {
    match Field(v, key)
    case Some(value) => Float(value)
    case None => None
  }

  /** What an error in a branch of the handler is caught as. */
  const CAUGHT := Reply(FAILED, None)

  /** The branches of the handler for an object that has a type. A type the handler does not know is confirmed and
      dropped. */
  function Record(body: Json): Outcome
    requires body.Object? && "type" in body.fields
  {
    var drone := if "drone_id" in body.fields then body.fields["drone_id"] else Text("default", None);
    var kind := body.fields["type"];
    if !kind.Text? then Reply(CONFIRMED, None)
    else if kind.text in {"position", "battery", "flight_mode"} then
      match Field(body, "data")
      case Some(data) => RecordData(kind.text, data, drone)
      case None => CAUGHT
    else if kind.text == "armed" then
      match Field(body, "armed")
      case Some(armed) => Reply(CONFIRMED, Some(Armed(drone, armed)))
      case None => CAUGHT
    else if kind.text == "in_air" then
      match Field(body, "in_air")
      case Some(inAir) => Reply(CONFIRMED, Some(InAir(drone, inAir)))
      case None => CAUGHT
    else Reply(CONFIRMED, None)
  }

  function RecordData(kind: string, data: Json, drone: Json): Outcome
    requires kind in {"position", "battery", "flight_mode"}
  {
    match kind
    case "position" =>
      var (lat, lon) := (FloatField(data, "latitude_deg"), FloatField(data, "longitude_deg"));
      (match (lat, lon, FloatField(data, "relative_altitude_m"))
       case (Some(lat), Some(lon), Some(alt)) => Reply(CONFIRMED, Some(Position(drone, lat, lon, alt)))
       case _ => CAUGHT)
    case "battery" =>
      (match (Field(data, "id"), Field(data, "remaining_percent"))
       case (Some(id), Some(percent)) => Reply(CONFIRMED, Some(Battery(drone, id, percent)))
       case _ => CAUGHT)
    case _ =>
      (match Field(data, "mode")
       case Some(mode) => Reply(CONFIRMED, Some(FlightMode(drone, mode)))
       case None => CAUGHT)
  }

  /** A value that is no object fails on `data.get` if it passes for one with a type, and is turned down if not;
      looking for a type in what is neither a text nor a list raises outside of the handler's `try`. */
  function Dispatch(post: Post): Outcome
  {
    match post
    case Unauthorised => Reply(401, None)
    case Unreadable(foreign) => Reply(if foreign then 415 else INVALID, None)
    case Posted(body) =>
      if !Truthy(body) then Reply(INVALID, None)
      else
        match body
        case Object(fields) => if "type" in fields then Record(body) else Reply(INVALID, None)
        case Text(_, _) => if NamesType(body) then CAUGHT else Reply(INVALID, None)
        case List(_) => if NamesType(body) then CAUGHT else Reply(INVALID, None)
        case _ => Reply(FAILED, None)
  }

  /** A reading comes of a confirmed request only. */
  lemma OnlyConfirmedReadings(post: Post)
    ensures Dispatch(post).reading.Some? ==> Dispatch(post).status == CONFIRMED
  {
  }

  // ---------- The answers, on the posted fields ----------

  /** What is turned down, and how: no token, no JSON, nothing in it, no type in it; and values that only look as if
      they had a type, or cannot be asked for one. */
  lemma RefusedExactly(post: Post)
    ensures post == Unauthorised ==> Dispatch(post) == Reply(401, None)
    ensures post == Unreadable(true) ==> Dispatch(post) == Reply(415, None)
    ensures post == Unreadable(false) ==> Dispatch(post) == Reply(400, None)
    ensures post.Posted? && post.body in {Null, Bool(false), Number(0.0), List([]), Object(map[])} ==>
              Dispatch(post) == Reply(400, None)
    ensures post.Posted? && (post.body == Bool(true) || (post.body.Number? && post.body.amount != 0.0)) ==>
              Dispatch(post) == Reply(500, None)
    ensures post.Posted? && post.body.Text? ==>
              var names := exists i :: 0 <= i <= |post.body.text| && "type" <= post.body.text[i..];
              Dispatch(post) == Reply(if names then 500 else 400, None)
    ensures post.Posted? && post.body.List? ==>
              var names := exists item :: item in post.body.items && item.Text? && item.text == "type";
              Dispatch(post) == Reply(if names then 500 else 400, None)
    ensures post.Posted? && post.body.Object? && "type" !in post.body.fields ==> Dispatch(post) == Reply(400, None)
  {
    if post.Posted? && post.body.Text? && post.body.text == "" {
      assert forall i :: 0 <= i <= 0 ==> !("type" <= post.body.text[i..]);
    }
  }

  predicate HasKind(fields: map<string, Json>, kind: string)
  {
    "type" in fields && fields["type"].Text? && fields["type"].text == kind
  }

  predicate HasData(fields: map<string, Json>, key: string)
  {
    "data" in fields && fields["data"].Object? && key in fields["data"].fields
  }

  /** A number, a truth value or a text that `float` turns into `x`. */
  predicate Amounts(v: Json, x: real)
  {
    || v == Number(x) || (v == Bool(true) && x == 1.0) || (v == Bool(false) && x == 0.0)
    || (v.Text? && v.number == Some(x))
  }

  predicate HasNumber(fields: map<string, Json>, key: string, x: real)
  {
    HasData(fields, key) && Amounts(fields["data"].fields[key], x)
  }

  /** The fields of an object say this reading, of the drone they name or the default one. */
  predicate Says(fields: map<string, Json>, reading: Reading)
  {
    && reading.drone == (if "drone_id" in fields then fields["drone_id"] else Text("default", None))
    && match reading
       case Position(_, latitude, longitude, altitude) =>
         && HasKind(fields, "position") && HasNumber(fields, "latitude_deg", latitude)
         && HasNumber(fields, "longitude_deg", longitude) && HasNumber(fields, "relative_altitude_m", altitude)
       case Battery(_, id, percent) =>
         && HasKind(fields, "battery") && HasData(fields, "id") && fields["data"].fields["id"] == id
         && HasData(fields, "remaining_percent") && fields["data"].fields["remaining_percent"] == percent
       case FlightMode(_, mode) =>
         HasKind(fields, "flight_mode") && HasData(fields, "mode") && fields["data"].fields["mode"] == mode
       case Armed(_, armed) => HasKind(fields, "armed") && "armed" in fields && fields["armed"] == armed
       case InAir(_, inAir) => HasKind(fields, "in_air") && "in_air" in fields && fields["in_air"] == inAir
  }

  predicate KnownKind(fields: map<string, Json>)
  {
    || HasKind(fields, "position") || HasKind(fields, "battery") || HasKind(fields, "flight_mode")
    || HasKind(fields, "armed") || HasKind(fields, "in_air")
  }

  /** An object with a type is recorded exactly as what its fields say; if it is of a known type and they say
      nothing, it fails, and if its type is unknown, it is confirmed without a record. */
  lemma RecordedExactly(fields: map<string, Json>, reading: Reading)
    requires "type" in fields
    ensures var r := Dispatch(Posted(Object(fields)));
            && (r.reading == Some(reading) <==> Says(fields, reading))
            && (r.reading.Some? ==> r.status == 200)
            && (r.reading == None ==> r.status == if KnownKind(fields) then 500 else 200)
  {
    hide RecordData, Says;
    assert fields != map[];
    RecordExactly(fields, reading);
  }

  lemma RecordExactly(fields: map<string, Json>, reading: Reading)
    requires "type" in fields
    ensures var r := Record(Object(fields));
            && (r.reading == Some(reading) <==> Says(fields, reading))
            && (r.reading.Some? ==> r.status == 200)
            && (r.reading == None ==> r.status == if KnownKind(fields) then 500 else 200)
  {
  }

  // ---------- The monitors ----------

  /** What the drone reports, monitor by monitor. */
  datatype Sample =
    | PositionSample(latitude: Json, longitude: Json, altitude: Json)
    | BatterySample(id: Json, percent: Json)
    | ModeSample(mode: Json)
    | InAirSample(inAir: Json)
    | ArmedSample(armed: Json)

  /** The monitors format positions as decimal numbers. */
  predicate Formatted(s: Sample)
  {
    s.PositionSample? ==> Float(s.latitude).Some? && Float(s.longitude).Some? && Float(s.altitude).Some?
  }

  function Typed(kind: string, key: string, value: Json): Json
  {
    Object(map["type" := Text(kind, None), key := value])
  }

  function MessageOf(s: Sample): Json
  {
    match s
    case PositionSample(lat, lon, alt) =>
      Typed("position", "data",
            Object(map["latitude_deg" := lat, "longitude_deg" := lon, "relative_altitude_m" := alt]))
    case BatterySample(id, percent) =>
      Typed("battery", "data", Object(map["id" := id, "remaining_percent" := percent]))
    case ModeSample(mode) => Typed("flight_mode", "data", Object(map["mode" := mode]))
    case InAirSample(inAir) => Typed("in_air", "in_air", inAir)
    case ArmedSample(armed) => Typed("armed", "armed", armed)
  }

  function ReadingOf(s: Sample): Reading
    requires Formatted(s)
  {
    var drone := Text("default", None);
    match s
    case PositionSample(lat, lon, alt) => Position(drone, Float(lat).value, Float(lon).value, Float(alt).value)
    case BatterySample(id, percent) => Battery(drone, id, percent)
    case ModeSample(mode) => FlightMode(drone, mode)
    case InAirSample(inAir) => InAir(drone, inAir)
    case ArmedSample(armed) => Armed(drone, armed)
  }

  /** Every monitor's message is confirmed and recorded with the values it was built from. */
  lemma MonitorsAreUnderstood(s: Sample)
    requires Formatted(s)
    ensures Dispatch(Posted(MessageOf(s))) == Reply(CONFIRMED, Some(ReadingOf(s)))
  {
    var body := MessageOf(s);
    assert "type" in body.fields;
  }
}
