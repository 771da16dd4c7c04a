/**
 * The in-memory event log of the telemetry collector
 * (Assets/Scripts/AnalyticsManager.cs:89-149): an append-only list of
 * gameplay events tagged with the session, a copying getter, and the form
 * that is posted for each event.
 *
 * The network post itself is not modelled: starting an upload coroutine
 * is recorded by appending the request (endpoint and form fields) to the
 * trace `startedUploads`, in the order in which the source starts them.
 * The engine clock and the wall-clock timestamp are parameters, and the
 * float-to-text conversion is the function `format`, fixed per instance
 * and otherwise unknown.
 */
module Analytics {
  import opened GameplayEvents

  /** One started upload: the endpoint suffix and the posted form fields. */
  datatype Upload = Upload(endpoint: string, form: map<string, string>)

  /** The endpoint suffix that receives one gameplay event. */
  const GameplayEventEndpoint := "GameplayEvent.php"

  /** The seven form keys of an uploaded event. */
  const FormKeys: set<string> :=
    {"sessionID", "eventType", "positionX", "positionY", "positionZ", "timestamp", "sessionDuration"}

  /**
   * The form fields posted for one event: the three text fields verbatim
   * and the four numbers as `format` writes them.
   */
  function EventForm(e: GameplayEvent, format: real -> string): (form: map<string, string>)
    ensures form.Keys == FormKeys
    ensures form["sessionID"] == e.sessionID
    ensures form["eventType"] == e.eventType
    ensures form["timestamp"] == e.timestamp
    ensures form["positionX"] == format(e.position.x)
    ensures form["positionY"] == format(e.position.y)
    ensures form["positionZ"] == format(e.position.z)
    ensures form["sessionDuration"] == format(e.sessionDuration)
  {
    map[
      "sessionID" := e.sessionID,
      "eventType" := e.eventType,
      "positionX" := format(e.position.x),
      "positionY" := format(e.position.y),
      "positionZ" := format(e.position.z),
      "timestamp" := e.timestamp,
      "sessionDuration" := format(e.sessionDuration)
    ]
  }

  /**
   * The form loses nothing but what the number format loses: two events
   * with the same form agree on the three text fields and on the text of
   * each of the four numbers.
   */
  lemma EventFormDeterminesFields(a: GameplayEvent, b: GameplayEvent, format: real -> string)
    requires EventForm(a, format) == EventForm(b, format)
    ensures a.sessionID == b.sessionID && a.eventType == b.eventType && a.timestamp == b.timestamp
    ensures format(a.position.x) == format(b.position.x)
    ensures format(a.position.y) == format(b.position.y)
    ensures format(a.position.z) == format(b.position.z)
    ensures format(a.sessionDuration) == format(b.sessionDuration)
  {
    var fa, fb := EventForm(a, format), EventForm(b, format);
    assert fa["positionX"] == fb["positionX"];
    assert fa["positionY"] == fb["positionY"];
    assert fa["positionZ"] == fb["positionZ"];
    assert fa["sessionDuration"] == fb["sessionDuration"];
  }

  /** The request that uploads one event. */
  function EventUpload(e: GameplayEvent, format: real -> string): Upload
  {
    Upload(GameplayEventEndpoint, EventForm(e, format))
  }

  /** The requests that upload the events, one per event, in list order. */
  function UploadsOf(events: seq<GameplayEvent>, format: real -> string): (uploads: seq<Upload>)
    ensures |uploads| == |events|
  {
    if events == [] then []
    else UploadsOf(events[..|events| - 1], format) + [EventUpload(events[|events| - 1], format)]
  }

  /** The i-th upload carries the form of the i-th event. */
  lemma {:induction false} UploadsOfAt(events: seq<GameplayEvent>, format: real -> string, i: int)
    requires 0 <= i < |events|
    ensures UploadsOf(events, format)[i] == EventUpload(events[i], format)
  {
    var init := events[..|events| - 1];
    if i < |init| {
      UploadsOfAt(init, format, i);
    }
  }

  class AnalyticsManager {
    var localEventsList: seq<GameplayEvent>
    var currentSessionID: string
    var sessionStartTime: real
    const format: real -> string
    var startedUploads: seq<Upload>

    /**
     * A fresh collector with an empty log. The session identifier (a new
     * GUID in the source) and the engine time at Awake are parameters.
     */
    constructor (sessionID: string, awakeTime: real, format: real -> string)
      ensures localEventsList == [] && startedUploads == []
      ensures currentSessionID == sessionID && sessionStartTime == awakeTime
      ensures this.format == format
    {
      localEventsList := [];
      currentSessionID := sessionID;
      sessionStartTime := awakeTime;
      this.format := format;
      startedUploads := [];
    }

    /**
     * Appends one event for the current session at the end of the log;
     * `now` is the engine time and `timestamp` the formatted UTC time.
     * Only when asked does it start an upload, of that event alone.
     */
    method RecordEvent(eventType: string, position: Vector3, uploadToServer: bool, now: real, timestamp: string)
      modifies this`localEventsList, this`startedUploads
      ensures var newEvent := GameplayEvent(currentSessionID, eventType, position, timestamp, now - sessionStartTime);
        && localEventsList == old(localEventsList) + [newEvent]
        && startedUploads == old(startedUploads) + if uploadToServer then [EventUpload(newEvent, format)] else []
    {
      var newEvent := GameplayEvent(currentSessionID, eventType, position, timestamp, now - sessionStartTime);
      localEventsList := localEventsList + [newEvent];
      if uploadToServer {
        UploadEvent(newEvent);
      }
    }

    /** Starts the upload of one event to the gameplay-event endpoint. */
    method UploadEvent(gameEvent: GameplayEvent)
      modifies this`startedUploads
      ensures startedUploads == old(startedUploads) + [EventUpload(gameEvent, format)]
    {
      var data := EventForm(gameEvent, format);
      startedUploads := startedUploads + [Upload(GameplayEventEndpoint, data)];
    }

    /**
     * A new list with the logged events in order. It is freshly allocated,
     * so writes to it cannot reach the log.
     */
    method GetAllEvents() returns (events: array<GameplayEvent>)
      ensures fresh(events)
      ensures events[..] == localEventsList
    {
      events := new GameplayEvent[|localEventsList|](i requires 0 <= i < |localEventsList| reads this => localEventsList[i]);
    }

    /** Starts one upload per logged event, in log order; the log is not changed. */
    method UploadAllEvents()
      modifies this`startedUploads
      ensures startedUploads == old(startedUploads) + UploadsOf(localEventsList, format)
    {
      var i := 0;
      while i < |localEventsList|
        invariant 0 <= i <= |localEventsList|
        invariant startedUploads == old(startedUploads) + UploadsOf(localEventsList[..i], format)
      {
        var gameEvent := localEventsList[i];
        assert localEventsList[..i + 1] == localEventsList[..i] + [gameEvent];
        UploadEvent(gameEvent);
        i := i + 1;
      }
      assert localEventsList[..i] == localEventsList;
    }
  }
}
