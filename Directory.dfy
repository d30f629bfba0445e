/**
 * The directory: the contacts list and the reminders list, with the dispatcher's actions on
 * them (`add_contact`, `delete_contact`, `set_reminder`), the reminder tick's selection of what
 * is due, and the resolution of a call or WhatsApp recipient to a number.
 */
module Directory {
  import opened Wrappers
  import opened Text
  import opened ActionTag

  datatype Contact = Contact(id: int, name: string, phone: string)

  // Status texts of the contact, call, message and reminder actions.
  const ExistsLead := "Error: A contact named '"
  const ExistsTail := "' already exists."
  const AddedTail := "' added successfully."
  const AddFailed := "Error: Could not add contact."
  const RemovedTail := "' has been removed."
  const ContactUnknownLead := "Error: Contact '"
  const NameMissing := "Error: Contact name not provided."
  const CallLead := "Initiating call to "
  const WhatsAppText := "Opening WhatsApp... Please confirm and send the message in the new tab."
  const RecipientTail := "' not found or invalid."
  const ReminderFailed := "Error: Could not set reminder."
  const FiredLead := "REMINDER: "

  /** A reminder; times are milliseconds since the epoch. */
  datatype Reminder = Reminder(id: int, text: string, dueTime: int)

  // ---- contacts

  predicate SameName(a: string, b: string) {
    Lower(a) == Lower(b)
  }

  /** `contacts.some(c => c.name.toLowerCase() === name.toLowerCase())`. */
  predicate HasNamed(cs: seq<Contact>, name: string) {
    exists i :: 0 <= i < |cs| && SameName(cs[i].name, name)
  }

  /** No two contacts have names equal ignoring case. */
  predicate NamesDistinct(cs: seq<Contact>) {
    forall i, j :: 0 <= i < j < |cs| ==> !SameName(cs[i].name, cs[j].name)
  }

  /** `contacts.filter(c => c.name.toLowerCase() !== name.toLowerCase())`. */
  function WithoutNamed(cs: seq<Contact>, name: string): (r: seq<Contact>)
    ensures |r| <= |cs|
  {
    if |cs| == 0 then []
    else if SameName(cs[0].name, name) then WithoutNamed(cs[1..], name)
    else [cs[0]] + WithoutNamed(cs[1..], name)
  }

  /** `add_contact`: a new contact with a name and a phone goes last, unless a contact of
      that name, ignoring case, already exists. */
  function AddContact(cs: seq<Contact>, params: map<string, string>, id: int): (r: Update<seq<Contact>>)
    ensures NamesDistinct(cs) ==> NamesDistinct(r.store)
    ensures r.store == cs || (|r.store| == |cs| + 1 && r.store[..|cs|] == cs)
  {
    if Given(params, "name") && Given(params, "phone") then
      var name, phone := params["name"], params["phone"];
      if HasNamed(cs, name) then
        Update(cs, ExistsLead + name + ExistsTail)
      else
        var r := cs + [Contact(id, name, phone)];
        assert r[..|cs|] == cs;
        Update(r, "Contact '" + name + AddedTail)
    else
      Update(cs, AddFailed)
  }

  /** `delete_contact`: every contact whose name matches, ignoring case, is removed. */
  function DeleteContact(cs: seq<Contact>, params: map<string, string>): (r: Update<seq<Contact>>)
    ensures NamesDistinct(cs) ==> NamesDistinct(r.store)
    ensures |r.store| <= |cs|
  {
    if Given(params, "name") then
      var name := params["name"];
      if HasNamed(cs, name) then
        DeleteKeepsDistinct(cs, name);
        Update(WithoutNamed(cs, name), "Contact '" + name + RemovedTail)
      else
        Update(cs, ContactUnknownLead + name + "' not found.")
    else
      Update(cs, NameMissing)
  }

  lemma {:induction false} DeleteKeepsDistinct(cs: seq<Contact>, name: string)
    ensures NamesDistinct(cs) ==> NamesDistinct(WithoutNamed(cs, name))
  {
    if |cs| > 0 && NamesDistinct(cs) {
      DeleteKeepsDistinct(cs[1..], name);
      DeleteContactKeepsOthers(cs[1..], name);
      var rest := WithoutNamed(cs[1..], name);
      if !SameName(cs[0].name, name) {
        assert forall c :: c in rest ==> c in cs[1..];
        forall j | 0 <= j < |rest| ensures !SameName(cs[0].name, rest[j].name) {
          assert rest[j] in cs[1..];
        }
      }
    }
  }

  /** `add_contact` with a name that an existing contact has, ignoring case, changes nothing and
      reports that it exists; a missing name or phone changes nothing and reports failure; an
      accepted contact is appended as the last one. */
  lemma AddContactOutcomes(cs: seq<Contact>, params: map<string, string>, id: int)
    ensures !(Given(params, "name") && Given(params, "phone")) ==>
      AddContact(cs, params, id) == Update(cs, AddFailed)
    ensures Given(params, "name") && Given(params, "phone") && HasNamed(cs, params["name"]) ==>
      AddContact(cs, params, id)
        == Update(cs, ExistsLead + params["name"] + ExistsTail)
    ensures Given(params, "name") && Given(params, "phone") && !HasNamed(cs, params["name"]) ==>
      AddContact(cs, params, id).store == cs + [Contact(id, params["name"], params["phone"])]
  {
  }

  /** `delete_contact` with a name removes exactly the contacts the filter drops and reports the
      removal; a name that matches no contact changes nothing and reports it not found; a
      missing name changes nothing and reports that the name is required. */
  lemma DeleteContactOutcomes(cs: seq<Contact>, params: map<string, string>)
    ensures Given(params, "name") && HasNamed(cs, params["name"]) ==>
      DeleteContact(cs, params)
        == Update(WithoutNamed(cs, params["name"]), "Contact '" + params["name"] + RemovedTail)
    ensures Given(params, "name") ==> DeleteContact(cs, params).store == WithoutNamed(cs, params["name"])
    ensures Given(params, "name") && !HasNamed(cs, params["name"]) ==>
      DeleteContact(cs, params) == Update(cs, ContactUnknownLead + params["name"] + "' not found.")
    ensures !Given(params, "name") ==> DeleteContact(cs, params) == Update(cs, NameMissing)
  {
    if Given(params, "name") {
      DeleteContactKeepsOthers(cs, params["name"]);
    }
  }

  /** After `add_contact`, the name asked for is in the list whatever happened before,
      unless a parameter was missing. */
  lemma AddContactThenPresent(cs: seq<Contact>, params: map<string, string>, id: int)
    requires Given(params, "name") && Given(params, "phone")
    ensures HasNamed(AddContact(cs, params, id).store, params["name"])
  {
    var name := params["name"];
    if !HasNamed(cs, name) {
      var r := AddContact(cs, params, id).store;
      assert r[|cs|].name == name;
    }
  }

  /** The filter of `delete_contact` keeps exactly the contacts whose names do not match; when
      nothing matches, it keeps the list as it is. */
  lemma {:induction false} DeleteContactKeepsOthers(cs: seq<Contact>, name: string)
    ensures forall c :: c in WithoutNamed(cs, name) <==> c in cs && !SameName(c.name, name)
    ensures !HasNamed(WithoutNamed(cs, name), name)
    ensures !HasNamed(cs, name) ==> WithoutNamed(cs, name) == cs
  {
    if |cs| > 0 {
      DeleteContactKeepsOthers(cs[1..], name);
      if !HasNamed(cs, name) {
        assert !HasNamed(cs[1..], name) by {
          forall i | 0 <= i < |cs[1..]| ensures !SameName(cs[1..][i].name, name) {
            assert cs[1..][i] == cs[i + 1];
          }
        }
        assert cs == [cs[0]] + cs[1..];
      }
      var r := WithoutNamed(cs, name);
      forall i | 0 <= i < |r| ensures !SameName(r[i].name, name) {
        assert r[i] in r;
      }
    }
  }

  /** The order of the contacts kept by a delete is their order before it. */
  lemma {:induction false} DeleteContactKeepsOrder(cs: seq<Contact>, name: string, i: nat, j: nat)
    requires i < j < |cs| && !SameName(cs[i].name, name) && !SameName(cs[j].name, name)
    ensures exists a, b :: (0 <= a < b < |WithoutNamed(cs, name)|
      && WithoutNamed(cs, name)[a] == cs[i] && WithoutNamed(cs, name)[b] == cs[j])
  {
    var r := WithoutNamed(cs, name);
    if i == 0 {
      assert r == [cs[0]] + WithoutNamed(cs[1..], name);
      assert cs[j] in WithoutNamed(cs[1..], name) by {
        assert cs[j] == cs[1..][j - 1];
        DeleteContactKeepsOthers(cs[1..], name);
      }
      var b :| 0 <= b < |WithoutNamed(cs[1..], name)| && WithoutNamed(cs[1..], name)[b] == cs[j];
      assert r[0] == cs[i] && r[b + 1] == cs[j];
    } else {
      DeleteContactKeepsOrder(cs[1..], name, i - 1, j - 1);
      var rest := WithoutNamed(cs[1..], name);
      var a, b :| 0 <= a < b < |rest| && rest[a] == cs[1..][i - 1] && rest[b] == cs[1..][j - 1];
      if SameName(cs[0].name, name) {
        assert r == rest;
        assert r[a] == cs[i] && r[b] == cs[j];
      } else {
        assert r == [cs[0]] + rest;
        assert r[a + 1] == cs[i] && r[b + 1] == cs[j];
      }
    }
  }

  // ---- recipients of `call_contact` and `send_whatsapp`

  /** `contacts.find(c => c.name.toLowerCase() === name.toLowerCase())`. */
  function FindNamed(cs: seq<Contact>, name: string): (r: Option<Contact>)
    ensures r.Some? ==> r.value in cs && SameName(r.value.name, name)
    ensures r.None? <==> !HasNamed(cs, name)
  {
    if |cs| == 0 then None
    else if SameName(cs[0].name, name) then Some(cs[0])
    else
      var r := FindNamed(cs[1..], name);
      assert HasNamed(cs[1..], name) ==> HasNamed(cs, name) by {
        if HasNamed(cs[1..], name) {
          var i :| 0 <= i < |cs[1..]| && SameName(cs[1..][i].name, name);
          assert cs[i + 1] == cs[1..][i];
        }
      }
      r
  }

  /** `/^(?=.*\d)[\d\s+-]+$/`: only digits, white space, `+` and `-`, and a digit on the first
      line (the look-ahead's `.` stops at a line terminator). The text "undefined", which a
      missing recipient becomes, is never phone-like. */
  predicate IsPhoneLike(s: string)
    ensures IsPhoneLike(s) ==> s != "undefined"
  {
    && |s| >= 1
    && (forall i :: 0 <= i < |s| ==> IsDigit(s[i]) || IsSpace(s[i]) || s[i] == '+' || s[i] == '-')
    && exists i :: 0 <= i < |s| && IsDigit(s[i]) && forall k :: 0 <= k < i ==> !IsLineTerminator(s[k])
  }

  /** `phone.replace(/[\s-]/g, '')`. */
  function Dialable(phone: string): (r: string)
    ensures forall i :: 0 <= i < |r| ==> !IsSpace(r[i]) && r[i] != '-'
    ensures |r| <= |phone|
  {
    if |phone| == 0 then ""
    else if IsSpace(phone[0]) || phone[0] == '-' then Dialable(phone[1..])
    else [phone[0]] + Dialable(phone[1..])
  }

  /** The number a recipient resolves to, `""` when it resolves to none: a contact whose name
      matches ignoring case first, else the recipient itself when it looks like a phone number.
      A missing recipient is matched as `''` and read by the phone pattern as the string "undefined". */
  function Resolve(cs: seq<Contact>, recipient: Option<string>): (r: string)
    ensures !HasNamed(cs, recipient.GetOr("")) ==> (r != "" <==> recipient.Some? && IsPhoneLike(recipient.value))
    ensures !HasNamed(cs, recipient.GetOr("")) && r != "" ==> recipient == Some(r)
  {
    match FindNamed(cs, recipient.GetOr(""))
    case Some(c) => c.phone
    case None => if recipient.Some? && IsPhoneLike(recipient.value) then recipient.value else ""
  }

  /** The host hand-off an action asks for. */
  datatype HostEffect = NoEffect | Dial(number: string) | OpenChat(number: string, text: string) | Download(image: string)

  /** The `recipient` parameter, when the action carries one. */
  function Recipient(params: map<string, string>): Option<string> {
    if "recipient" in params then Some(params["recipient"]) else None
  }

  /** `call_contact` (when `call` holds) or `send_whatsapp`: the status text and the hand-off.
      A resolved recipient is dialled, or its chat opened with the message (`""` without one),
      on the resolved number with white space and hyphens removed; the call status names the
      recipient as given, or the number when the recipient is empty; an unresolved one is only
      reported. */
  function Reach(cs: seq<Contact>, params: map<string, string>, call: bool): (r: (string, HostEffect))
    ensures r.1.NoEffect? <==> Resolve(cs, Recipient(params)) == ""
    ensures r.1.Dial? <==> call && Resolve(cs, Recipient(params)) != ""
    ensures r.1.OpenChat? <==> !call && Resolve(cs, Recipient(params)) != ""
    ensures !r.1.Download?
    ensures r.1.Dial? || r.1.OpenChat? ==> r.1.number == Dialable(Resolve(cs, Recipient(params)))
    ensures r.1.OpenChat? ==> r.1.text == (if "message" in params then params["message"] else "")
    ensures r.1.Dial? ==> r.0 == CallLead + (if Recipient(params).GetOr("") != "" then params["recipient"] else r.1.number) + "..."
    ensures r.1.OpenChat? ==> r.0 == WhatsAppText
    ensures r.1.NoEffect? ==> r.0 == "Recipient '" + Recipient(params).GetOr("undefined") + RecipientTail
  {
    var recipient := Recipient(params);
    var target := Resolve(cs, recipient);
    if target != "" then
      var number := Dialable(target);
      if call then
        (CallLead + (if recipient.Some? && recipient.value != "" then recipient.value else number) + "...",
         Dial(number))
      else
        (WhatsAppText,
         OpenChat(number, if "message" in params then params["message"] else ""))
    else
      ("Recipient '" + recipient.GetOr("undefined") + RecipientTail, NoEffect)
  }

  /** A recipient read as a phone number, naming no contact, is handed over as digits and `+`
      only, with at least one digit. */
  lemma NumberHandedOver(cs: seq<Contact>, params: map<string, string>, call: bool)
    requires "recipient" in params && !HasNamed(cs, params["recipient"])
    requires !Reach(cs, params, call).1.NoEffect?
    ensures DigitsAndPlus(Reach(cs, params, call).1.number)
  {
    var phone := params["recipient"];
    assert Resolve(cs, Recipient(params)) == phone && IsPhoneLike(phone);
    PhoneLikeDialled(phone);
  }

  /** Only digits and `+`, and at least one digit. */
  predicate DigitsAndPlus(n: string) {
    (forall i :: 0 <= i < |n| ==> IsDigit(n[i]) || n[i] == '+') && exists i :: 0 <= i < |n| && IsDigit(n[i])
  }

  /** The pattern's look-ahead guarantees a digit, and dialling keeps it. */
  lemma PhoneLikeDialled(phone: string)
    requires IsPhoneLike(phone)
    ensures DigitsAndPlus(Dialable(phone))
  {
    DialableKeeps(phone);
    var d :| 0 <= d < |phone| && IsDigit(phone[d]) && forall k :: 0 <= k < d ==> !IsLineTerminator(phone[k]);
    assert phone[d] in Dialable(phone);
  }

  /** A contact whose name matches, ignoring case, is preferred over reading the recipient as a
      number, even when the recipient also looks like one. */
  lemma ContactBeforeNumber(cs: seq<Contact>, recipient: string)
    requires HasNamed(cs, recipient)
    ensures Resolve(cs, Some(recipient)) == FindNamed(cs, recipient).value.phone
  {
  }

  /** Dialling keeps every `+` and digit, in order, and drops white space and hyphens; a
      number that passed the phone pattern is dialled as digits and `+` only. */
  lemma {:induction false} DialableKeeps(phone: string)
    ensures forall c :: !IsSpace(c) && c != '-' ==> (c in Dialable(phone) <==> c in phone)
    ensures (forall i :: 0 <= i < |phone| ==> IsDigit(phone[i]) || IsSpace(phone[i]) || phone[i] == '+' || phone[i] == '-')
      ==> forall i :: 0 <= i < |Dialable(phone)| ==> IsDigit(Dialable(phone)[i]) || Dialable(phone)[i] == '+'
  {
    if |phone| > 0 {
      DialableKeeps(phone[1..]);
    }
  }

  /** A recipient that names no contact resolves to itself exactly when it looks like a phone
      number. */
  lemma NumberFallback(cs: seq<Contact>, recipient: string)
    requires !HasNamed(cs, recipient)
    ensures Resolve(cs, Some(recipient)) == (if IsPhoneLike(recipient) then recipient else "")
  {
  }

  /** When the recipient does not resolve, the only effect is the not-found message. */
  lemma UnresolvedOnlyReports(cs: seq<Contact>, params: map<string, string>, call: bool)
    requires "recipient" in params && Resolve(cs, Some(params["recipient"])) == ""
    ensures Reach(cs, params, call) == ("Recipient '" + params["recipient"] + RecipientTail, NoEffect)
  {
  }

  /** "Bob" names no contact and is not a number, so a call to it is reported as not found. */
  lemma BobNotFound()
    ensures Resolve([], Some("Bob")) == ""
  {
    var bob := "Bob";
    assert !IsDigit(bob[0]) && !IsSpace(bob[0]) && bob[0] != '+' && bob[0] != '-';
    assert !IsPhoneLike(bob);
  }

  lemma {:induction false} DialableAppend(a: string, b: string)
    ensures Dialable(a + b) == Dialable(a) + Dialable(b)
  {
    if |a| > 0 {
      assert (a + b)[1..] == a[1..] + b;
      DialableAppend(a[1..], b);
    } else {
      assert a + b == b;
    }
  }

  lemma {:induction false} DialableDigits(s: string)
    requires forall i :: 0 <= i < |s| ==> IsDigit(s[i])
    ensures Dialable(s) == s
  {
    if |s| > 0 {
      DialableDigits(s[1..]);
    }
  }

  /** "555-123-4567" looks like a phone number. */
  lemma NumberResolves()
    ensures Resolve([], Some("555-123-4567")) == "555-123-4567"
  {
    var n := "555-123-4567";
    assert IsDigit(n[0]);
    assert forall i :: 0 <= i < |n| ==> IsDigit(n[i]) || n[i] == '-';
    assert IsPhoneLike(n);
  }

  /** A hyphen between two pieces is dropped. */
  lemma DialHyphen(x: string, y: string)
    ensures Dialable(x + "-" + y) == Dialable(x) + Dialable(y)
  {
    DialableAppend(x + "-", y);
    DialableAppend(x, "-");
    assert Dialable("-") == "" by { assert "-"[1..] == ""; }
  }

  /** Digit groups joined by hyphens, as in "555-123-4567", are dialled as the digits alone. */
  lemma GroupsDialled(a: string, b: string, c: string)
    requires forall i :: 0 <= i < |a| ==> IsDigit(a[i])
    requires forall i :: 0 <= i < |b| ==> IsDigit(b[i])
    requires forall i :: 0 <= i < |c| ==> IsDigit(c[i])
    ensures Dialable(a + "-" + b + "-" + c) == a + b + c
  {
    DialHyphen(a, b);
    DialHyphen(a + "-" + b, c);
    DialableDigits(a);
    DialableDigits(b);
    DialableDigits(c);
  }

  // ---- reminders

  /** `parseInt(s, 10)`: leading white space, an optional sign, then the longest run of decimal
      digits; `NaN` (here `None`) when there is no digit. A missing value parses as "undefined". */
  function ParseInt(s: string): (r: Option<int>)
    ensures r.Some? ==> exists i :: 0 <= i < |s| && IsDigit(s[i])
  {
    var t := TrimStart(s);
    if |t| > 0 && t[0] == '-' then
      match Unsigned(t[1..])
      case Some(v) => Some(-v)
      case None => None
    else if |t| > 0 && t[0] == '+' then Unsigned(t[1..])
    else Unsigned(t)
  }

  /** The value of the leading run of decimal digits, if there is one. */
  function Unsigned(u: string): (r: Option<int>)
    ensures r.Some? <==> |u| > 0 && IsDigit(u[0])
  {
    var n := LeadingDigits(u);
    if n == 0 then None else Some(DigitsValue(u[..n]))
  }

  /** The number of leading decimal digits. */
  function LeadingDigits(s: string): (n: nat)
    ensures n <= |s|
  {
    if |s| > 0 && IsDigit(s[0]) then 1 + LeadingDigits(s[1..]) else 0
  }

  /** The value of a run of decimal digits, most significant first. */
  function DigitsValue(s: string): int
  {
    if |s| == 0 then 0
    else 10 * DigitsValue(s[..|s| - 1]) + (s[|s| - 1] as int - '0' as int)
  }

  /** A run of digits followed by a non-digit has exactly that many leading digits. */
  lemma {:induction false} LeadingRun(d: string, rest: string)
    requires forall i :: 0 <= i < |d| ==> IsDigit(d[i])
    requires rest == "" || !IsDigit(rest[0])
    ensures LeadingDigits(d + rest) == |d|
  {
    if |d| > 0 {
      assert (d + rest)[1..] == d[1..] + rest;
      LeadingRun(d[1..], rest);
    } else {
      assert d + rest == rest;
    }
  }

  /** The unsigned part of a run of digits followed by a non-digit is the run's value. */
  lemma UnsignedRun(d: string, rest: string)
    requires d != "" && forall i :: 0 <= i < |d| ==> IsDigit(d[i])
    requires rest == "" || !IsDigit(rest[0])
    ensures Unsigned(d + rest) == Some(DigitsValue(d))
  {
    LeadingRun(d, rest);
    assert (d + rest)[..|d|] == d;
  }

  /** `parseInt` reads an optionally signed run of digits and ignores whatever follows it
      (with `UnsignedRun`: a seconds value such as "90s" or "-5" is accepted, the latter due
      in the past): unsigned ... */
  lemma ParseUnsigned(s: string, v: int)
    requires Unsigned(s) == Some(v)
    ensures ParseInt(s) == Some(v)
  {
    TrimStartKeeps(s);
  }

  /** ... with a plus sign ... */
  lemma ParsePlus(s: string, v: int)
    requires Unsigned(s) == Some(v)
    ensures ParseInt("+" + s) == Some(v)
  {
    var t := "+" + s;
    assert t[1..] == s;
    TrimStartKeeps(t);
  }

  /** ... and with a minus sign, negated. */
  lemma ParseMinus(s: string, v: int)
    requires Unsigned(s) == Some(v)
    ensures ParseInt("-" + s) == Some(-v)
  {
    var t := "-" + s;
    assert t[1..] == s;
    TrimStartKeeps(t);
  }

  /** `set_reminder`: with a seconds count that parses and a non-empty message, a reminder due
      that many seconds from `now` goes last, its id being `now`. */
  function SetReminder(rs: seq<Reminder>, params: map<string, string>, now: int): (r: Update<seq<Reminder>>)
    ensures r.store == rs || (|r.store| == |rs| + 1 && r.store[..|rs|] == rs && r.store[|rs|].id == now)
    ensures r.store != rs ==> Given(params, "message") && r.text != ReminderFailed
  {
    var seconds := if "dueInSeconds" in params then ParseInt(params["dueInSeconds"]) else None;
    if seconds.Some? && Given(params, "message") then
      var r := rs + [Reminder(now, params["message"], now + seconds.value * 1000)];
      var text := "Reminder set: \"" + params["message"] + "\"";
      assert text[0] != ReminderFailed[0];
      Update(r, text)
    else
      Update(rs, ReminderFailed)
  }

  /** `set_reminder` appends exactly one reminder, due `1000 * seconds` milliseconds after `now`
      and identified by `now`, when the seconds parse and the message is non-empty ... */
  lemma SetReminderAdds(rs: seq<Reminder>, params: map<string, string>, now: int, seconds: int)
    requires "dueInSeconds" in params && ParseInt(params["dueInSeconds"]) == Some(seconds)
    requires Given(params, "message")
    ensures SetReminder(rs, params, now).store == rs + [Reminder(now, params["message"], now + seconds * 1000)]
  {
  }

  /** ... and otherwise changes nothing and reports the failure. */
  lemma SetReminderRefuses(rs: seq<Reminder>, params: map<string, string>, now: int)
    requires !("dueInSeconds" in params && ParseInt(params["dueInSeconds"]).Some?) || !Given(params, "message")
    ensures SetReminder(rs, params, now) == Update(rs, ReminderFailed)
  {
  }

  /** Text without a leading digit does not parse: "soon" is `NaN`. */
  lemma ParseNaN()
    ensures ParseInt("soon") == None
  {
    var c := "soon";
    assert TrimStart(c) == c by { assert !IsSpace(c[0]); }
  }

  /** The reminders due at `now`, in list order. */
  function Due(rs: seq<Reminder>, now: int): (r: seq<Reminder>)
    ensures |r| <= |rs|
  {
    if |rs| == 0 then []
    else if now >= rs[0].dueTime then [rs[0]] + Due(rs[1..], now)
    else Due(rs[1..], now)
  }

  /** The reminders not yet due at `now`, in list order. */
  function Pending(rs: seq<Reminder>, now: int): (r: seq<Reminder>)
    ensures |r| <= |rs|
  {
    if |rs| == 0 then []
    else if now >= rs[0].dueTime then Pending(rs[1..], now)
    else [rs[0]] + Pending(rs[1..], now)
  }

  /** The messages a tick emits, one per due reminder, in list order. */
  function Fired(rs: seq<Reminder>, now: int): (r: seq<string>)
    ensures |r| <= |rs|
  {
    if |rs| == 0 then []
    else if now >= rs[0].dueTime then [FiredLead + rs[0].text] + Fired(rs[1..], now)
    else Fired(rs[1..], now)
  }

  function IdsOf(rs: seq<Reminder>): set<int>
  {
    set x | x in rs :: x.id
  }

  /** `prev.filter(r => r.id !== id)` for each of a set of ids. */
  function WithoutIds(rs: seq<Reminder>, ids: set<int>): (r: seq<Reminder>)
    ensures |r| <= |rs|
  {
    if |rs| == 0 then []
    else if rs[0].id in ids then WithoutIds(rs[1..], ids)
    else [rs[0]] + WithoutIds(rs[1..], ids)
  }

  /** The due reminders are exactly the members due at `now`, and the pending ones exactly
      those that are not. */
  lemma {:induction false} DueSplits(rs: seq<Reminder>, now: int)
    ensures forall x :: x in Due(rs, now) <==> x in rs && now >= x.dueTime
    ensures forall x :: x in Pending(rs, now) <==> x in rs && now < x.dueTime
  {
    if |rs| > 0 {
      DueSplits(rs[1..], now);
      assert forall x :: x in rs <==> x == rs[0] || x in rs[1..];
    }
  }

  /** A tick fires one `REMINDER: <text>` per due reminder, in the order of the list. */
  lemma {:induction false} FiredDue(rs: seq<Reminder>, now: int)
    ensures |Fired(rs, now)| == |Due(rs, now)|
    ensures forall i :: 0 <= i < |Fired(rs, now)| ==> Fired(rs, now)[i] == FiredLead + Due(rs, now)[i].text
  {
    if |rs| > 0 {
      FiredDue(rs[1..], now);
    }
  }

  /** Filtering by ids keeps exactly the members whose id is not among them. */
  lemma {:induction false} WithoutIdsMembers(rs: seq<Reminder>, ids: set<int>)
    ensures forall x :: x in WithoutIds(rs, ids) <==> x in rs && x.id !in ids
  {
    if |rs| > 0 {
      WithoutIdsMembers(rs[1..], ids);
      assert forall x :: x in rs <==> x == rs[0] || x in rs[1..];
    }
  }

  /** The due reminders of a list grown by one are those of the list, then the new one if due. */
  lemma {:induction false} DueSnoc(rs: seq<Reminder>, x: Reminder, now: int)
    ensures now >= x.dueTime ==> Due(rs + [x], now) == Due(rs, now) + [x]
    ensures now < x.dueTime ==> Due(rs + [x], now) == Due(rs, now)
  {
    if |rs| > 0 {
      assert (rs + [x])[1..] == rs[1..] + [x];
      DueSnoc(rs[1..], x, now);
    } else {
      assert [x][1..] == [];
    }
  }

  /** The texts fired for a list grown by one: those of the list, then the new one's if due. */
  lemma {:induction false} FiredSnoc(rs: seq<Reminder>, x: Reminder, now: int)
    ensures now >= x.dueTime ==> Fired(rs + [x], now) == Fired(rs, now) + [FiredLead + x.text]
    ensures now < x.dueTime ==> Fired(rs + [x], now) == Fired(rs, now)
  {
    if |rs| > 0 {
      assert (rs + [x])[1..] == rs[1..] + [x];
      FiredSnoc(rs[1..], x, now);
    } else {
      assert [x][1..] == [];
    }
  }

  lemma IdsOfSnoc(rs: seq<Reminder>, x: Reminder)
    ensures IdsOf(rs + [x]) == IdsOf(rs) + {x.id}
  {
  }

  /** Filtering out no ids keeps the list. */
  lemma {:induction false} WithoutNoIds(rs: seq<Reminder>)
    ensures WithoutIds(rs, {}) == rs
  {
    if |rs| > 0 {
      WithoutNoIds(rs[1..]);
    }
  }

  /** Filtering out one more id after some ids is filtering out both. */
  lemma {:induction false} WithoutIdsStep(rs: seq<Reminder>, ids: set<int>, id: int)
    ensures WithoutIds(WithoutIds(rs, ids), {id}) == WithoutIds(rs, ids + {id})
  {
    if |rs| > 0 {
      WithoutIdsStep(rs[1..], ids, id);
      if rs[0].id !in ids {
        assert WithoutIds(rs, ids) == [rs[0]] + WithoutIds(rs[1..], ids);
      }
    }
  }

  predicate IdsDistinct(rs: seq<Reminder>) {
    forall i, j :: 0 <= i < j < |rs| ==> rs[i].id != rs[j].id
  }

  /** With distinct ids, removing the ids of the due reminders keeps exactly the pending ones,
      in order. */
  lemma {:induction false} TickKeepsPending(rs: seq<Reminder>, now: int)
    requires IdsDistinct(rs)
    ensures WithoutIds(rs, IdsOf(Due(rs, now))) == Pending(rs, now)
  {
    if |rs| > 0 {
      var ids := IdsOf(Due(rs, now));
      var tailIds := IdsOf(Due(rs[1..], now));
      TickKeepsPending(rs[1..], now);
      DueSplits(rs[1..], now);
      assert rs[0].id !in tailIds;
      if now >= rs[0].dueTime {
        assert ids == {rs[0].id} + tailIds;
        SameFilter(rs[1..], ids, tailIds);
      } else {
        assert ids == tailIds;
      }
    }
  }

  /** Filtering a list by two id sets that agree on its ids gives the same list. */
  lemma {:induction false} SameFilter(rs: seq<Reminder>, a: set<int>, b: set<int>)
    requires forall x :: x in rs ==> (x.id in a <==> x.id in b)
    ensures WithoutIds(rs, a) == WithoutIds(rs, b)
  {
    if |rs| > 0 {
      SameFilter(rs[1..], a, b);
    }
  }

  /** Whatever the ids, no reminder due at `now` survives the tick. */
  lemma TickLeavesNothingDue(rs: seq<Reminder>, now: int)
    ensures Due(WithoutIds(rs, IdsOf(Due(rs, now))), now) == []
  {
    var r := WithoutIds(rs, IdsOf(Due(rs, now)));
    DueSplits(rs, now);
    DueSplits(r, now);
    WithoutIdsMembers(rs, IdsOf(Due(rs, now)));
    assert |Due(r, now)| == 0 || Due(r, now)[0] in Due(r, now);
  }

  /** A reminder set at `now` for `seconds` seconds is due at `t` exactly from
      `now + 1000 * seconds` on; a tick at such a `t` removes it, and a tick before then keeps
      it unless a due reminder shares its id. */
  lemma SetReminderFires(rs: seq<Reminder>, params: map<string, string>, now: int, seconds: int, t: int)
    requires "dueInSeconds" in params && ParseInt(params["dueInSeconds"]) == Some(seconds)
    requires Given(params, "message")
    ensures var store := SetReminder(rs, params, now).store;
      var x := Reminder(now, params["message"], now + 1000 * seconds);
      && x in store
      && (x in Due(store, t) <==> t >= now + 1000 * seconds)
      && (t >= now + 1000 * seconds ==> x !in WithoutIds(store, IdsOf(Due(store, t))))
      && (t < now + 1000 * seconds && now !in IdsOf(Due(rs, t)) ==> x in WithoutIds(store, IdsOf(Due(store, t))))
  {
    var store := SetReminder(rs, params, now).store;
    var x := Reminder(now, params["message"], now + 1000 * seconds);
    assert store == rs + [x];
    DueSplits(store, t);
    WithoutIdsMembers(store, IdsOf(Due(store, t)));
    DueSnoc(rs, x, t);
  }

  /** The tick removes by id: a reminder that is not due but shares its id with a due one (two
      reminders set at the same millisecond) is dropped without ever firing. */
  lemma SharedIdDropsPending()
    ensures var rs := [Reminder(7, "a", 0), Reminder(7, "b", 100)];
      && Pending(rs, 50) == [Reminder(7, "b", 100)]
      && WithoutIds(rs, IdsOf(Due(rs, 50))) == []
  {
    var a, b := Reminder(7, "a", 0), Reminder(7, "b", 100);
    assert [a, b][1..] == [b];
    assert Due([b], 50) == [] by { assert [b][1..] == []; }
    assert Due([a, b], 50) == [a];
    assert IdsOf(Due([a, b], 50)) == {7} by { assert a in [a]; }
    assert WithoutIds([b], {7}) == [] by { assert [b][1..] == []; }
    assert Pending([b], 50) == [b] by { assert [b][1..] == []; }
  }
}
