/**
 * The assistant session: the state App keeps (message log, busy and speaking flags, photo,
 * reminders, contacts, knowledge, web sources) and the steps that change it. The remote
 * services, the camera, the clock and speech are inputs; asynchronous steps are separate
 * methods run in the order the callbacks fire: `Submit` (the synchronous start of a turn),
 * `Receive` (the awaited reply), `Dispatch` (the deferred action), `Tick` (the reminder
 * interval) and `SpeechEnded` (the utterance's end callback).
 */
module Session {
  import opened Wrappers
  import opened Text
  import opened ActionTag
  import Memory
  import Recall
  import Directory
  import opened Routing

  datatype Role = User | Model | System

  datatype Message = Message(role: Role, text: string)

  /** The camera component: absent, or present with what its `capture()` returns now. */
  datatype Camera = NoCamera | Camera(frame: Option<string>)

  /** What a remote call gave: a thrown error, or the reply text and its grounding chunks. */
  datatype Response = Failed | Replied(text: string, chunks: seq<Chunk>)

  /** Where a submitted turn stands. */
  datatype Turn = Answered | Ignored | Awaiting(route: Route)

  const Greeting := "Initializing Nova Assistant... Stand by."
  const ServiceError := "Error communicating with Nova Core. Please check your connection or API key."
  const NoImage := "I couldn't get an image from the camera. Please try again."
  const Analyzing := "Analyzing visual input..."
  const Searching := "Searching the web..."

  /** The cases of the dispatcher's `switch`. */
  datatype Kind =
    | CapturePhoto | ClearPhoto | SavePhoto | SetReminder | OpenApp | CloseApp
    | AddContact | ViewContacts | DeleteContact | Remember | Forget | ViewMemory
    | CallContact | SendWhatsApp

  /** The action name of each case. */
  function NameOf(k: Kind): string
  {
    match k
    case CapturePhoto => "capture_photo"
    case ClearPhoto => "clear_photo"
    case SavePhoto => "save_photo"
    case SetReminder => "set_reminder"
    case OpenApp => "open_app"
    case CloseApp => "close_app"
    case AddContact => "add_contact"
    case ViewContacts => "view_contacts"
    case DeleteContact => "delete_contact"
    case Remember => "remember"
    case Forget => "forget"
    case ViewMemory => "view_memory"
    case CallContact => "call_contact"
    case SendWhatsApp => "send_whatsapp"
  }

  // Status texts of the photo and app actions.
  const NoCameraText := "Error: Visual input component not available."
  const CapturedText := "Visual input captured."
  const CaptureFailed := "Error: Could not capture visual input."
  const SaveOk := "Acknowledged. Preparing secure download. Please authorize the save action in your browser."
  const SaveNone := "Action failed: No visual input has been captured. Please capture a photo before saving."
  const NovaOpen := "Acknowledged: This is the Nova Personal Assistant interface."
  const NovaClose := "Acknowledged. Terminating Nova session."
  const OpenLead := "Simulating: open_app('"
  const CloseLead := "Executing: close_app('"
  const ClearedText := "Visual input cleared. Resuming live feed."
  const ContactsShown := "Displaying all saved contacts."

  /** The case an action name selects: none for a name the `switch` does not know, which
      falls through without effect. */
  function KindOf(name: string): (r: Option<Kind>)
    ensures r.Some? ==> NameOf(r.value) == name
  {
    if name == "capture_photo" then Some(Kind.CapturePhoto)
    else if name == "clear_photo" then Some(Kind.ClearPhoto)
    else if name == "save_photo" then Some(Kind.SavePhoto)
    else if name == "set_reminder" then Some(SetReminder)
    else if name == "open_app" then Some(OpenApp)
    else if name == "close_app" then Some(CloseApp)
    else if name == "add_contact" then Some(AddContact)
    else if name == "view_contacts" then Some(ViewContacts)
    else if name == "delete_contact" then Some(DeleteContact)
    else if name == "remember" then Some(Remember)
    else if name == "forget" then Some(Forget)
    else if name == "view_memory" then Some(ViewMemory)
    else if name == "call_contact" then Some(CallContact)
    else if name == "send_whatsapp" then Some(SendWhatsApp)
    else None
  }

  /** Every case is reached by its own name, so no two cases share one. */
  lemma KindOfName(k: Kind)
    ensures KindOf(NameOf(k)) == Some(k)
  {
  }

  /** A name selects no case exactly when it is the name of none. */
  lemma KindOfNone(name: string)
    ensures KindOf(name).None? <==> forall k :: NameOf(k) != name
  {
    if KindOf(name).None? {
      forall k ensures NameOf(k) != name {
        KindOfName(k);
      }
    }
  }

  /** The camera returned an image (a truthy data URL). */
  predicate Shot(camera: Camera) {
    camera.Camera? && camera.frame.Some? && camera.frame.value != ""
  }

  function CaptureText(camera: Camera): string
  {
    if camera.NoCamera? then NoCameraText
    else if Shot(camera) then CapturedText
    else CaptureFailed
  }

  function SaveText(image: Option<string>): string
  {
    if image.Some? && image.value != "" then
      SaveOk
    else
      SaveNone
  }

  function OpenAppText(app: string): string
  {
    if Lower(app) == "nova" then NovaOpen
    else OpenLead + app + "')..."
  }

  function CloseAppText(app: string): string
  {
    if Lower(app) == "nova" then NovaClose
    else CloseLead + app + "')..."
  }

  /** The system message a dispatched action logs, given the state before it; none for an
      unknown name, and none for `clear_photo` without a camera. */
  function Notice(a: RawAction, now: int, camera: Camera, cs: seq<Directory.Contact>, rs: seq<Directory.Reminder>,
                  es: seq<Memory.Entry>, image: Option<string>): (r: Option<string>)
    ensures r.None? <==> KindOf(a.name).None? || (KindOf(a.name) == Some(Kind.ClearPhoto) && camera.NoCamera?)
  {
    var p := Params(a.paramsString);
    match KindOf(a.name)
    case None => None
    case Some(k) =>
      match k
      case CapturePhoto => Some(CaptureText(camera))
      case ClearPhoto => if camera.Camera? then Some(ClearedText) else None
      case SavePhoto => Some(SaveText(image))
      case SetReminder => Some(Directory.SetReminder(rs, p, now).text)
      case OpenApp => Some(OpenAppText(a.paramsString))
      case CloseApp => Some(CloseAppText(a.paramsString))
      case AddContact => Some(Directory.AddContact(cs, p, now).text)
      case ViewContacts => Some(ContactsShown)
      case DeleteContact => Some(Directory.DeleteContact(cs, p).text)
      case Remember => Some(Memory.Remember(es, p).text)
      case Forget => Some(Memory.Forget(es, p).text)
      case ViewMemory => Some(Memory.ViewMemoryText(es))
      case CallContact => Some(Directory.Reach(cs, p, true).0)
      case SendWhatsApp => Some(Directory.Reach(cs, p, false).0)
  }

  /** The contact list after the case `k`: only `add_contact` and `delete_contact` change it, and
      names stay distinct ignoring case. */
  function ContactsAfter(k: Option<Kind>, cs: seq<Directory.Contact>, p: map<string, string>, now: int): (r: seq<Directory.Contact>)
    ensures k != Some(AddContact) && k != Some(DeleteContact) ==> r == cs
    ensures Directory.NamesDistinct(cs) ==> Directory.NamesDistinct(r)
  {
    if k == Some(AddContact) then Directory.AddContact(cs, p, now).store
    else if k == Some(DeleteContact) then Directory.DeleteContact(cs, p).store
    else cs
  }

  /** The reminder list after the case `k`: only `set_reminder` changes it, by appending one. */
  function RemindersAfter(k: Option<Kind>, rs: seq<Directory.Reminder>, p: map<string, string>, now: int): (r: seq<Directory.Reminder>)
    ensures k != Some(SetReminder) ==> r == rs
    ensures r == rs || (|r| == |rs| + 1 && r[..|rs|] == rs)
  {
    if k == Some(SetReminder) then Directory.SetReminder(rs, p, now).store else rs
  }

  /** The knowledge base after the case `k`: only `remember` and `forget` change it, and keys
      stay distinct. */
  function KnowledgeAfter(k: Option<Kind>, es: seq<Memory.Entry>, p: map<string, string>): (r: seq<Memory.Entry>)
    ensures k != Some(Remember) && k != Some(Forget) ==> r == es
    ensures Memory.KeysDistinct(es) ==> Memory.KeysDistinct(r)
  {
    if k == Some(Remember) then Memory.Remember(es, p).store
    else if k == Some(Forget) then Memory.Forget(es, p).store
    else es
  }

  /** `close_app` naming the assistant itself ends the session. */
  predicate Closes(k: Option<Kind>, app: string)
  {
    k == Some(CloseApp) && Lower(app) == "nova"
  }

  /** What the case `k` asks of the host: a download of the captured image (only for
      `save_photo`), a dialled number (only for `call_contact`) or an opened chat (only for
      `send_whatsapp`). */
  function EffectOf(k: Option<Kind>, cs: seq<Directory.Contact>, p: map<string, string>, image: Option<string>): (r: Directory.HostEffect)
    ensures r.Download? ==> k == Some(Kind.SavePhoto) && image == Some(r.image) && r.image != ""
    ensures r.Dial? ==> k == Some(CallContact)
    ensures r.OpenChat? ==> k == Some(SendWhatsApp)
  {
    if k == Some(Kind.SavePhoto) && image.Some? && image.value != "" then Directory.Download(image.value)
    else if k == Some(CallContact) || k == Some(SendWhatsApp) then Directory.Reach(cs, p, k == Some(CallContact)).1
    else Directory.NoEffect
  }

  /** The log entries for a run of system texts. */
  function Systems(texts: seq<string>): (r: seq<Message>)
    ensures |r| == |texts|
  {
    seq(|texts|, i requires 0 <= i < |texts| => Message(System, texts[i]))
  }

  /** Logging one more text logs one more system message. */
  lemma SystemsSnoc(texts: seq<string>, t: string)
    ensures Systems(texts + [t]) == Systems(texts) + [Message(System, t)]
  {
    assert Systems(texts + [t])[|texts|] == Message(System, t);
  }

  /** One due reminder of a tick: removing its id, and logging and speaking its text, extends
      what the reminders before it did. */
  lemma TickFires(rs: seq<Directory.Reminder>, done: seq<Directory.Reminder>, r: Directory.Reminder, now: int,
                  log: seq<Message>, said: seq<string>)
    requires now >= r.dueTime
    ensures Directory.WithoutIds(Directory.WithoutIds(rs, Directory.IdsOf(Directory.Due(done, now))), {r.id})
            == Directory.WithoutIds(rs, Directory.IdsOf(Directory.Due(done + [r], now)))
    ensures log + Systems(Directory.Fired(done, now)) + [Message(System, Directory.FiredLead + r.text)]
            == log + Systems(Directory.Fired(done + [r], now))
    ensures said + Directory.Fired(done, now) + [Directory.FiredLead + r.text]
            == said + Directory.Fired(done + [r], now)
    ensures |Directory.Due(done + [r], now)| > 0
  {
    var text := Directory.FiredLead + r.text;
    var fired := Directory.Fired(done, now);
    Directory.DueSnoc(done, r, now);
    Directory.FiredSnoc(done, r, now);
    SystemsSnoc(fired, text);
    Directory.WithoutIdsStep(rs, Directory.IdsOf(Directory.Due(done, now)), r.id);
    Directory.IdsOfSnoc(Directory.Due(done, now), r);
    assert log + Systems(fired) + [Message(System, text)] == log + (Systems(fired) + [Message(System, text)]);
    assert said + fired + [text] == said + (fired + [text]);
  }

  /** Before a tick has looked at any reminder, nothing is removed, logged or spoken. */
  lemma TickStarts(rs: seq<Directory.Reminder>, now: int, log: seq<Message>, said: seq<string>)
    ensures Directory.WithoutIds(rs, Directory.IdsOf(Directory.Due(rs[..0], now))) == rs
    ensures log + Systems(Directory.Fired(rs[..0], now)) == log
    ensures said + Directory.Fired(rs[..0], now) == said
    ensures |Directory.Due(rs[..0], now)| == 0
  {
    Directory.WithoutNoIds(rs);
    assert rs[..0] == [] && Directory.Due([], now) == [] && Directory.IdsOf([]) == {};
    assert Directory.Fired([], now) == [] && Systems([]) == [];
    assert log + [] == log && said + [] == said;
  }

  /** A reminder not yet due is neither removed, logged nor spoken. */
  lemma TickSkips(done: seq<Directory.Reminder>, r: Directory.Reminder, now: int)
    requires now < r.dueTime
    ensures Directory.Due(done + [r], now) == Directory.Due(done, now)
    ensures Directory.Fired(done + [r], now) == Directory.Fired(done, now)
  {
    Directory.DueSnoc(done, r, now);
    Directory.FiredSnoc(done, r, now);
  }

  class Assistant {
    var messages: seq<Message>
    var isLoading: bool
    var isSpeaking: bool
    /** The texts handed to speech synthesis, in order. */
    var spoken: seq<string>
    var isSessionActive: bool
    var isPhotoCaptured: bool
    var capturedImage: Option<string>
    var reminders: seq<Directory.Reminder>
    var contacts: seq<Directory.Contact>
    var knowledge: seq<Memory.Entry>
    var webSources: seq<WebSource>

    /** Contact names stay distinct ignoring case, and the knowledge base has each key once. */
    ghost predicate Valid()
      reads this
    {
      Directory.NamesDistinct(contacts) && Memory.KeysDistinct(knowledge)
    }

    /** A fresh session over the knowledge base loaded from storage. */
    constructor (stored: seq<Memory.Entry>)
      requires Memory.KeysDistinct(stored)
      ensures Valid()
      ensures messages == [Message(System, Greeting)]
      ensures !isLoading && !isSpeaking && spoken == [] && isSessionActive
      ensures !isPhotoCaptured && capturedImage == None
      ensures reminders == [] && contacts == [] && knowledge == stored && webSources == []
    {
      messages := [Message(System, Greeting)];
      isLoading, isSpeaking, spoken := false, false, [];
      isSessionActive := true;
      isPhotoCaptured, capturedImage := false, None;
      reminders, contacts, knowledge, webSources := [], [], stored, [];
    }

    /** Appends a system message. */
    method Log(text: string)
      modifies this`messages
      ensures messages == old(messages) + [Message(System, text)]
    {
      messages := messages + [Message(System, text)];
    }

    /** `setIsSpeaking(true); speak(text, () => setIsSpeaking(false))`: an empty text is not
        spoken and its end callback runs at once. */
    method Say(text: string)
      modifies this`isSpeaking, this`spoken
      ensures spoken == if text != "" then old(spoken) + [text] else old(spoken)
      ensures isSpeaking == (text != "")
    {
      if text != "" {
        spoken := spoken + [text];
        isSpeaking := true;
      } else {
        isSpeaking := false;
      }
    }

    /** The end (or error) callback of the current utterance. */
    method SpeechEnded()
      modifies this`isSpeaking
      ensures !isSpeaking
    {
      isSpeaking := false;
    }

    /** The synchronous part of `handleSendMessage`: clear the sources, run the recall
        interceptor on the current knowledge base, then go on with its result. */
    method Submit(text: string, chatReady: bool, camera: Camera) returns (turn: Turn)
      requires Valid()
      modifies this`webSources, this`messages, this`isLoading, this`isSpeaking, this`spoken
      ensures Valid()
      ensures webSources == []
      ensures Handled(text, chatReady, camera, Recall.Recall(text, knowledge), turn,
                      old(messages), old(spoken), old(isSpeaking), old(isLoading))
    {
      webSources := [];
      var hit := Recall.Intercept(text, knowledge);
      turn := Proceed(text, chatReady, camera, hit);
    }

    /** What a turn leaves, given the recall result: a hit logs the user message and speaks
        the answer, bypassing the busy guard; otherwise a dropped turn changes nothing and an
        accepted one is started. */
    ghost predicate Handled(text: string, chatReady: bool, camera: Camera, hit: Option<Memory.Entry>,
                            turn: Turn, log: seq<Message>, said: seq<string>, speaking: bool, loading: bool)
      reads this
    {
      && (hit.Some? ==>
            && turn == Answered
            && messages == log + [Message(User, text)]
            && spoken == said + [Recall.Answer(hit.value)] && isSpeaking
            && isLoading == loading)
      && (hit.None? && Dropped(text, loading, chatReady) ==>
            && turn == Ignored && messages == log
            && spoken == said && isSpeaking == speaking && isLoading == loading)
      && (hit.None? && !Dropped(text, loading, chatReady) ==>
            Started(text, camera, turn, log, said, speaking))
    }

    /** The rest of `handleSendMessage` once the interceptor has run. */
    method Proceed(text: string, chatReady: bool, camera: Camera, hit: Option<Memory.Entry>) returns (turn: Turn)
      modifies this`messages, this`isLoading, this`isSpeaking, this`spoken
      ensures Handled(text, chatReady, camera, hit, turn, old(messages), old(spoken), old(isSpeaking), old(isLoading))
    {
      if hit.Some? {
        messages := messages + [Message(User, text)];
        Say(Recall.Answer(hit.value));
        return Answered;
      }
      if Dropped(text, isLoading, chatReady) {
        return Ignored;
      }
      turn := Start(text, camera);
    }

    /** What starting a routed request leaves: the user message logged, then per route the
        notice, the camera error, or nothing; busy while a reply is awaited. */
    ghost predicate Started(text: string, camera: Camera, turn: Turn,
                            log: seq<Message>, said: seq<string>, speaking: bool)
      reads this
    {
      var route := RouteOf(text, camera.Camera?);
      && (route == Visual && !Shot(camera) ==>
            && turn == Answered && !isLoading
            && messages == log + [Message(User, text), Message(System, NoImage)]
            && spoken == said + [NoImage] && isSpeaking)
      && (route == Visual && Shot(camera) ==>
            && turn == Awaiting(Visual) && isLoading
            && messages == log + [Message(User, text), Message(System, Analyzing)])
      && (route == Search ==>
            && turn == Awaiting(Search) && isLoading
            && messages == log + [Message(User, text), Message(System, Searching)])
      && (route == Chat ==>
            turn == Awaiting(Chat) && isLoading && messages == log + [Message(User, text)])
      && (turn.Awaiting? ==> spoken == said && isSpeaking == speaking)
    }

    /** Past the busy guard: mark busy, log the user message and route it. */
    method Start(text: string, camera: Camera) returns (turn: Turn)
      modifies this`messages, this`isLoading, this`isSpeaking, this`spoken
      ensures Started(text, camera, turn, old(messages), old(spoken), old(isSpeaking))
    {
      isLoading := true;
      messages := messages + [Message(User, text)];
      var route := RouteOf(text, camera.Camera?);
      if route == Visual {
        if Shot(camera) {
          Log(Analyzing);
          turn := Awaiting(Visual);
        } else {
          Log(NoImage);
          Say(NoImage);
          isLoading := false;
          turn := Answered;
        }
      } else if route == Search {
        Log(Searching);
        turn := Awaiting(Search);
      } else {
        turn := Awaiting(Chat);
      }
    }

    /** The awaited part of a turn: speak the reply (for a chat reply, without its tag), take
        the web sources of a grounded reply, or report a failed call; the action of a chat reply
        is returned for the deferred dispatch. */
    method Receive(route: Route, response: Response) returns (pending: Option<RawAction>)
      requires Valid()
      modifies this`webSources, this`messages, this`isLoading, this`isSpeaking, this`spoken
      ensures Valid() && !isLoading
      ensures response.Failed? ==>
        && pending == None && webSources == old(webSources)
        && messages == old(messages) + [Message(System, ServiceError)]
        && spoken == old(spoken) + [ServiceError] && isSpeaking
      ensures response.Replied? ==> messages == old(messages)
      ensures response.Replied? && route != Chat ==>
        && pending == None
        && webSources == (if route == Search then FilterSources(response.chunks) else old(webSources))
        && spoken == (if response.text != "" then old(spoken) + [response.text] else old(spoken))
        && isSpeaking == (response.text != "")
      ensures response.Replied? && route == Chat ==>
        var parsed := ParseReply(response.text);
        && pending == parsed.action && webSources == old(webSources)
        && spoken == (if parsed.visible != "" then old(spoken) + [parsed.visible] else old(spoken))
        && isSpeaking == (if parsed.visible != "" then true else old(isSpeaking))
    {
      pending := None;
      if response.Failed? {
        Log(ServiceError);
        Say(ServiceError);
      } else if route == Visual {
        Say(response.text);
      } else if route == Search {
        webSources := FilterSources(response.chunks);
        Say(response.text);
      } else {
        var parsed := ParseReply(response.text);
        if parsed.visible != "" {
          Say(parsed.visible);
        }
        pending := parsed.action;
      }
      isLoading := false;
    }

    /** `capturePhoto`. */
    method CapturePhoto(camera: Camera)
      modifies this`isPhotoCaptured, this`capturedImage, this`messages
      ensures messages == old(messages) + [Message(System, CaptureText(camera))]
      ensures Shot(camera) ==> isPhotoCaptured && capturedImage == camera.frame
      ensures !Shot(camera) ==> isPhotoCaptured == old(isPhotoCaptured) && capturedImage == old(capturedImage)
    {
      if Shot(camera) {
        isPhotoCaptured := true;
        capturedImage := camera.frame;
      }
      Log(CaptureText(camera));
    }

    /** `clearPhoto`: only with a camera present. */
    method ClearPhoto(camera: Camera)
      modifies this`isPhotoCaptured, this`capturedImage, this`messages
      ensures camera.Camera? ==>
        && !isPhotoCaptured && capturedImage == None
        && messages == old(messages) + [Message(System, ClearedText)]
      ensures camera.NoCamera? ==>
        isPhotoCaptured == old(isPhotoCaptured) && capturedImage == old(capturedImage) && messages == old(messages)
    {
      if camera.Camera? {
        isPhotoCaptured := false;
        capturedImage := None;
        Log(ClearedText);
      }
    }

    /** `handleSavePhoto`: a download of the captured image, if there is one. */
    method SavePhoto() returns (effect: Directory.HostEffect)
      modifies this`messages
      ensures messages == old(messages) + [Message(System, SaveText(capturedImage))]
      ensures effect == if capturedImage.Some? && capturedImage.value != "" then Directory.Download(capturedImage.value) else Directory.NoEffect
    {
      effect := if capturedImage.Some? && capturedImage.value != "" then Directory.Download(capturedImage.value) else Directory.NoEffect;
      Log(SaveText(capturedImage));
    }

    /** What running `action` leaves: the contact list, the reminders, the knowledge base, the
        session flag and the host hand-off as its case makes them; the photo state set by a
        capture that took a shot, cleared by `clear_photo` with a camera and otherwise kept; and
        the case's notice, if any, logged as one system message. */
    twostate predicate Dispatched(action: RawAction, now: int, camera: Camera, effect: Directory.HostEffect)
      reads this
    {
      var k, p := KindOf(action.name), Params(action.paramsString);
      var t := Notice(action, now, camera, old(contacts), old(reminders), old(knowledge), old(capturedImage));
      && contacts == ContactsAfter(k, old(contacts), p, now)
      && reminders == RemindersAfter(k, old(reminders), p, now)
      && knowledge == KnowledgeAfter(k, old(knowledge), p)
      && isSessionActive == (old(isSessionActive) && !Closes(k, action.paramsString))
      && effect == EffectOf(k, old(contacts), p, old(capturedImage))
      && (k == Some(Kind.CapturePhoto) && Shot(camera) ==> isPhotoCaptured && camera == Camera(capturedImage))
      && (k == Some(Kind.ClearPhoto) && camera.Camera? ==> !isPhotoCaptured && capturedImage == None)
      && (!(k == Some(Kind.CapturePhoto) && Shot(camera)) && !(k == Some(Kind.ClearPhoto) && camera.Camera?) ==>
            isPhotoCaptured == old(isPhotoCaptured) && capturedImage == old(capturedImage))
      && messages == old(messages) + (if t.Some? then [Message(System, t.value)] else [])
    }

    /** The deferred body that runs a parsed action: parse the params, then the `switch`. Each
        group of cases runs in a method of its own with this same contract. */
    method Dispatch(action: RawAction, now: int, camera: Camera) returns (effect: Directory.HostEffect)
      requires Valid()
      modifies this`contacts, this`reminders, this`knowledge, this`messages, this`isSessionActive
      modifies this`isPhotoCaptured, this`capturedImage
      ensures Valid()
      ensures Dispatched(action, now, camera, effect)
    {
      var params := CollectParams(action.paramsString);
      effect := Directory.NoEffect;
      match KindOf(action.name)
      case None =>
      case Some(k) =>
        if k == SetReminder {
          effect := RunReminder(action, k, params, now, camera);
        } else if k == AddContact || k == DeleteContact {
          effect := RunContacts(action, k, params, now, camera);
        } else if k == Remember || k == Forget {
          effect := RunMemory(action, k, params, now, camera);
        } else if k == Kind.CapturePhoto || k == Kind.ClearPhoto || k == Kind.SavePhoto {
          effect := RunPhoto(action, k, now, camera);
        } else if k == OpenApp || k == CloseApp {
          effect := RunApp(action, k, now, camera);
        } else if k == ViewContacts || k == ViewMemory {
          effect := RunListing(action, k, now, camera);
        } else {
          effect := RunReach(action, k, params, now, camera);
        }
    }

    /** The case `set_reminder` of the `switch`. */
    method RunReminder(action: RawAction, k: Kind, params: map<string, string>, now: int, camera: Camera)
      returns (effect: Directory.HostEffect)
      requires k == SetReminder
      requires KindOf(action.name) == Some(k) && params == Params(action.paramsString)
      requires Valid()
      modifies this`reminders, this`messages
      ensures Valid()
      ensures Dispatched(action, now, camera, effect)
    {
      effect := Directory.NoEffect;
      var u := Directory.SetReminder(reminders, params, now);
      reminders := u.store;
      Log(u.text);
    }

    /** The cases `add_contact` and `delete_contact` of the `switch`. */
    method RunContacts(action: RawAction, k: Kind, params: map<string, string>, now: int, camera: Camera)
      returns (effect: Directory.HostEffect)
      requires k == AddContact || k == DeleteContact
      requires KindOf(action.name) == Some(k) && params == Params(action.paramsString)
      requires Valid()
      modifies this`contacts, this`messages
      ensures Valid()
      ensures Dispatched(action, now, camera, effect)
    {
      effect := Directory.NoEffect;
      match k
      case AddContact =>
        var u := Directory.AddContact(contacts, params, now);
        contacts := u.store;
        Log(u.text);
      case DeleteContact =>
        var u := Directory.DeleteContact(contacts, params);
        contacts := u.store;
        Log(u.text);
    }

    /** The cases `remember` and `forget` of the `switch`. */
    method RunMemory(action: RawAction, k: Kind, params: map<string, string>, now: int, camera: Camera)
      returns (effect: Directory.HostEffect)
      requires k == Remember || k == Forget
      requires KindOf(action.name) == Some(k) && params == Params(action.paramsString)
      requires Valid()
      modifies this`knowledge, this`messages
      ensures Valid()
      ensures Dispatched(action, now, camera, effect)
    {
      effect := Directory.NoEffect;
      match k
      case Remember =>
        var u := Memory.Remember(knowledge, params);
        knowledge := u.store;
        Log(u.text);
      case Forget =>
        var u := Memory.Forget(knowledge, params);
        knowledge := u.store;
        Log(u.text);
    }

    /** The cases `capture_photo`, `clear_photo` and `save_photo` of the `switch`. */
    method RunPhoto(action: RawAction, k: Kind, now: int, camera: Camera)
      returns (effect: Directory.HostEffect)
      requires k == Kind.CapturePhoto || k == Kind.ClearPhoto || k == Kind.SavePhoto
      requires KindOf(action.name) == Some(k)
      requires Valid()
      modifies this`messages, this`isPhotoCaptured, this`capturedImage
      ensures Valid()
      ensures Dispatched(action, now, camera, effect)
    {
      effect := Directory.NoEffect;
      match k
      case CapturePhoto => this.CapturePhoto(camera);
      case ClearPhoto => this.ClearPhoto(camera);
      case SavePhoto => effect := this.SavePhoto();
    }

    /** The cases `open_app` and `close_app` of the `switch`. */
    method RunApp(action: RawAction, k: Kind, now: int, camera: Camera)
      returns (effect: Directory.HostEffect)
      requires k == OpenApp || k == CloseApp
      requires KindOf(action.name) == Some(k)
      requires Valid()
      modifies this`messages, this`isSessionActive
      ensures Valid()
      ensures Dispatched(action, now, camera, effect)
    {
      effect := Directory.NoEffect;
      match k
      case OpenApp => Log(OpenAppText(action.paramsString));
      case CloseApp =>
        if Lower(action.paramsString) == "nova" {
          isSessionActive := false;
        }
        Log(CloseAppText(action.paramsString));
    }

    /** The cases `view_contacts` and `view_memory` of the `switch`. */
    method RunListing(action: RawAction, k: Kind, now: int, camera: Camera)
      returns (effect: Directory.HostEffect)
      requires k == ViewContacts || k == ViewMemory
      requires KindOf(action.name) == Some(k)
      requires Valid()
      modifies this`messages
      ensures Valid()
      ensures Dispatched(action, now, camera, effect)
    {
      effect := Directory.NoEffect;
      match k
      case ViewContacts => Log(ContactsShown);
      case ViewMemory => Log(Memory.ViewMemoryText(knowledge));
    }

    /** The cases `call_contact` and `send_whatsapp` of the `switch`. */
    method RunReach(action: RawAction, k: Kind, params: map<string, string>, now: int, camera: Camera)
      returns (effect: Directory.HostEffect)
      requires k == CallContact || k == SendWhatsApp
      requires KindOf(action.name) == Some(k) && params == Params(action.paramsString)
      requires Valid()
      modifies this`messages
      ensures Valid()
      ensures Dispatched(action, now, camera, effect)
    {
      effect := Directory.NoEffect;
      var r := Directory.Reach(contacts, params, k == CallContact);
      effect := r.1;
      Log(r.0);
    }

    /** The `forEach` callback of the reminder interval: a due reminder is logged and spoken as
        `REMINDER: <text>`, and the reminders with its id are removed; one not yet due is left. */
    method Remind(r: Directory.Reminder, now: int)
      modifies this`reminders, this`messages, this`spoken, this`isSpeaking
      ensures now >= r.dueTime ==>
        && reminders == Directory.WithoutIds(old(reminders), {r.id})
        && messages == old(messages) + [Message(System, Directory.FiredLead + r.text)]
        && spoken == old(spoken) + [Directory.FiredLead + r.text] && isSpeaking
      ensures now < r.dueTime ==>
        reminders == old(reminders) && messages == old(messages) && spoken == old(spoken) && isSpeaking == old(isSpeaking)
    {
      if now >= r.dueTime {
        var text := Directory.FiredLead + r.text;
        Log(text);
        Say(text);
        reminders := Directory.WithoutIds(reminders, {r.id});
      }
    }

    /** What a tick over the reminders `rs` has done once it has looked at their prefix `done`:
        the reminders sharing an id with a due one are gone, and each due one, in order, is
        logged and spoken. */
    ghost predicate Ticked(rs: seq<Directory.Reminder>, done: seq<Directory.Reminder>, now: int,
                           log: seq<Message>, said: seq<string>, speaking: bool)
      reads this
    {
      && reminders == Directory.WithoutIds(rs, Directory.IdsOf(Directory.Due(done, now)))
      && messages == log + Systems(Directory.Fired(done, now))
      && spoken == said + Directory.Fired(done, now)
      && isSpeaking == (speaking || |Directory.Due(done, now)| > 0)
    }

    /** The reminder interval's body: every reminder due at `now`, in list order, is logged and
        spoken as `REMINDER: <text>`, and the reminders with its id are removed. */
    method Tick(now: int)
      requires Valid()
      modifies this`reminders, this`messages, this`spoken, this`isSpeaking
      ensures Valid()
      ensures Ticked(old(reminders), old(reminders), now, old(messages), old(spoken), old(isSpeaking))
    {
      var snapshot := reminders;
      var i := 0;
      TickStarts(snapshot, now, messages, spoken);
      while i < |snapshot|
        invariant 0 <= i <= |snapshot|
        invariant Ticked(snapshot, snapshot[..i], now, old(messages), old(spoken), old(isSpeaking))
      {
        var r := snapshot[i];
        assert snapshot[..i + 1] == snapshot[..i] + [r];
        if now >= r.dueTime {
          TickFires(snapshot, snapshot[..i], r, now, old(messages), old(spoken));
        } else {
          TickSkips(snapshot[..i], r, now);
        }
        Remind(r, now);
        i := i + 1;
      }
      assert snapshot[..i] == snapshot;
    }
  }
}
