/**
 * The recall interceptor: before any remote call, the trimmed user text is tried against five
 * case-insensitive phrasings, in order; the subject captured by the first phrasing whose
 * subject names a stored key with a non-empty value is answered from the knowledge base.
 */
module Recall {
  import opened Wrappers
  import opened Text
  import opened Memory

  /** One phrasing: a lower-case lead-in, then `(.+)`, then `\?` when `question` holds. */
  datatype Pattern = Pattern(lead: string, question: bool)

  /** `/what is my (.+)\?/i`, `/what's my (.+)\?/i`, `/what did i tell you about (.+)\?/i`,
      `/recall my (.+)/i`, `/do you remember my (.+)\?/i`. */
  const Patterns: seq<Pattern> := [
    Pattern(WhatIsMy, true),
    Pattern(WhatsMy, true),
    Pattern(WhatDidITell, true),
    Pattern(RecallMy, false),
    Pattern(DoYouRemember, true)
  ]

  const WhatIsMy: string := "what is my "
  const WhatsMy: string := "what's my "
  const WhatDidITell: string := "what did i tell you about "
  const RecallMy: string := "recall my "
  const DoYouRemember: string := "do you remember my "

  /** The lead-in occurs at `p`, ignoring ASCII case. */
  predicate LeadAt(s: string, p: nat, lead: string) {
    p + |lead| <= |s| && Lower(s[p..p + |lead|]) == lead
  }

  /** The end of the line that `from` is on: the first line terminator at or after `from`. */
  function LineEnd(s: string, from: nat): (e: nat)
    requires from <= |s|
    ensures from <= e <= |s|
    decreases |s| - from
  {
    if from == |s| || IsLineTerminator(s[from]) then from else LineEnd(s, from + 1)
  }

  /** The last `?` in `s[from..until]`. */
  function LastQuestion(s: string, from: nat, until: nat): (q: Option<nat>)
    requires from <= until <= |s|
    ensures q.Some? ==> from <= q.value < until && s[q.value] == '?'
    decreases until - from
  {
    if from == until then None
    else if s[until - 1] == '?' then Some(until - 1)
    else LastQuestion(s, from, until - 1)
  }

  /** The subject the greedy `(.+)` captures when the lead-in matched at `p`: the rest of the
      line, or, with a trailing `\?`, the line up to its last `?`; at least one character. */
  function CaptureAt(s: string, p: nat, pat: Pattern): Option<string>
    requires LeadAt(s, p, pat.lead)
  {
    var start := p + |pat.lead|;
    var end := LineEnd(s, start);
    if start == end then None
    else if !pat.question then Some(s[start..end])
    else
      match LastQuestion(s, start + 1, end)
      case Some(q) => Some(s[start..q])
      case None => None
  }

  /** The regular expression's match at `p`, if there is one. */
  function MatchAt(s: string, p: nat, pat: Pattern): Option<string>
  {
    if LeadAt(s, p, pat.lead) then CaptureAt(s, p, pat) else None
  }

  /** The leftmost match at or after `p`. */
  function FirstMatch(s: string, pat: Pattern, p: nat): (r: Option<string>)
    requires p <= |s|
    ensures r.Some? ==> |r.value| >= 1
    decreases |s| - p
  {
    var here := MatchAt(s, p, pat);
    if here.Some? then here
    else if p == |s| then None
    else FirstMatch(s, pat, p + 1)
  }

  /** `FirstMatch` finds the leftmost match: a match at some `k`, and none before it ... */
  lemma {:induction false} FirstMatchLeftmost(s: string, pat: Pattern, p: nat) returns (k: nat)
    requires p <= |s| && FirstMatch(s, pat, p).Some?
    ensures p <= k <= |s| && MatchAt(s, k, pat) == FirstMatch(s, pat, p)
    ensures forall m :: p <= m < k ==> MatchAt(s, m, pat).None?
    decreases |s| - p
  {
    if MatchAt(s, p, pat).Some? {
      k := p;
    } else {
      k := FirstMatchLeftmost(s, pat, p + 1);
    }
  }

  /** ... and it finds none only when there is no match at all. */
  lemma {:induction false} FirstMatchNone(s: string, pat: Pattern, p: nat)
    requires p <= |s|
    ensures FirstMatch(s, pat, p).None? <==> forall k :: p <= k <= |s| ==> MatchAt(s, k, pat).None?
    decreases |s| - p
  {
    if MatchAt(s, p, pat).None? && p < |s| {
      FirstMatchNone(s, pat, p + 1);
    }
  }

  /** `match[1].trim().toLowerCase()` looked up case-insensitively; a hit needs a truthy key
      and a truthy value. */
  function Lookup(es: seq<Entry>, subject: string): (r: Option<Entry>)
    ensures r.Some? ==> r.value in es && r.value.key != "" && r.value.value != ""
    ensures r.Some? ==> Lower(r.value.key) == Lower(Trim(subject))
  {
    match FindCI(es, Lower(Trim(subject)))
    case Some(e) => if e.key != "" && e.value != "" then Some(e) else None
    case None => None
  }

  /** The first stored key equal to the subject ignoring case decides: it is answered exactly
      when its key and its value are both non-empty, whatever later entries hold. */
  lemma LookupFirst(es: seq<Entry>, subject: string, i: nat)
    requires i < |es| && Lower(es[i].key) == Lower(Trim(subject))
    requires forall j | 0 <= j < i :: Lower(es[j].key) != Lower(Trim(subject))
    ensures Lookup(es, subject) == (if es[i].key != "" && es[i].value != "" then Some(es[i]) else None)
  {
    var lowered := Lower(Trim(subject));
    var found := FindCI(es, lowered);
    assert found.Some?;
    var k :| 0 <= k < |es| && es[k] == found.value && forall j | 0 <= j < k :: Lower(es[j].key) != lowered;
    assert k == i;
  }

  /** What trying pattern `i` yields on the trimmed text. */
  function Try(t: string, es: seq<Entry>, i: nat): Option<Entry>
    requires i < |Patterns|
  {
    match FirstMatch(t, Patterns[i], 0)
    case Some(subject) => Lookup(es, subject)
    case None => None
  }

  /** What each pattern yields on the trimmed text, in declared order. */
  function Tries(t: string, es: seq<Entry>): (r: seq<Option<Entry>>)
    ensures |r| == |Patterns|
    ensures forall i :: 0 <= i < |Patterns| ==> r[i] == Try(t, es, i)
  {
    seq(|Patterns|, i requires 0 <= i < |Patterns| => Try(t, es, i))
  }

  /** The `for ... of recallPatterns` loop with its `break`: the first hit, if any. */
  function FirstHit(rs: seq<Option<Entry>>): Option<Entry>
  {
    if |rs| == 0 then None
    else if rs[0].Some? then rs[0]
    else FirstHit(rs[1..])
  }

  /** The entry recall answers from for a user text, if any. */
  function Recall(text: string, es: seq<Entry>): (r: Option<Entry>)
    ensures r.Some? ==> r.value in es && r.value.key != "" && r.value.value != ""
  {
    FirstHitIsFirst(Tries(Trim(text), es));
    FirstHit(Tries(Trim(text), es))
  }

  const AnswerLead := "Based on my records, your "

  /** The spoken answer: it opens with the lead, names the key and ends with the value. */
  function Answer(e: Entry): (r: string)
    ensures |r| > |AnswerLead| + |e.key| + |e.value| && r[..|AnswerLead|] == AnswerLead
    ensures r[|AnswerLead|..|AnswerLead| + |e.key|] == e.key && r[|r| - |e.value|..] == e.value
  {
    AnswerLead + e.key + " is: " + e.value
  }

  /** The interceptor's loop: each pattern in turn on the trimmed text, stopping at the first
      whose subject names a stored key with a non-empty value. */
  method Intercept(text: string, es: seq<Entry>) returns (hit: Option<Entry>)
    ensures hit == Recall(text, es)
  {
    var t := Trim(text);
    ghost var tries := Tries(t, es);
    var i := 0;
    while i < |Patterns|
      invariant 0 <= i <= |Patterns|
      invariant FirstHit(tries[i..]) == FirstHit(tries)
    {
      var found := Try(t, es, i);
      FirstHitStep(tries, i);
      if found.Some? {
        return found;
      }
      i := i + 1;
    }
    assert tries[i..] == [];
    return None;
  }

  /** One step of the search for the first hit. */
  lemma FirstHitStep(rs: seq<Option<Entry>>, i: nat)
    requires i < |rs|
    ensures FirstHit(rs[i..]) == if rs[i].Some? then rs[i] else FirstHit(rs[i + 1..])
  {
    assert rs[i..][0] == rs[i] && rs[i..][1..] == rs[i + 1..];
  }

  /** The first hit is the result of the first try that hits: every earlier try missed; and
      there is no hit only when every try missed. */
  lemma {:induction false} FirstHitIsFirst(rs: seq<Option<Entry>>)
    ensures FirstHit(rs).Some? ==>
      exists n :: 0 <= n < |rs| && rs[n] == FirstHit(rs) && forall m :: 0 <= m < n ==> rs[m].None?
    ensures FirstHit(rs).None? <==> forall n :: 0 <= n < |rs| ==> rs[n].None?
  {
    if |rs| > 0 {
      FirstHitIsFirst(rs[1..]);
      if rs[0].None? && FirstHit(rs).Some? {
        var n :| 0 <= n < |rs[1..]| && rs[1..][n] == FirstHit(rs[1..])
          && forall m :: 0 <= m < n ==> rs[1..][m].None?;
        assert rs[n + 1] == FirstHit(rs);
        assert forall m :: 0 <= m < n + 1 ==> rs[m].None? by {
          forall m | 0 < m < n + 1 ensures rs[m].None? {
            assert rs[m] == rs[1..][m - 1];
          }
        }
      }
      if rs[0].None? && FirstHit(rs).None? {
        forall n | 0 < n < |rs| ensures rs[n].None? {
          assert rs[n] == rs[1..][n - 1];
        }
      }
    }
  }

  /** The patterns are tried in declared order: a hit comes from the first pattern that yields
      one, and every earlier pattern either did not match or named no stored non-empty value;
      a miss means that every pattern missed. */
  lemma RecallInOrder(text: string, es: seq<Entry>)
    ensures Recall(text, es).Some? ==>
      exists n :: 0 <= n < |Patterns| && Try(Trim(text), es, n) == Recall(text, es)
        && forall m :: 0 <= m < n ==> Try(Trim(text), es, m).None?
    ensures Recall(text, es).None? <==> forall n :: 0 <= n < |Patterns| ==> Try(Trim(text), es, n).None?
  {
    FirstHitIsFirst(Tries(Trim(text), es));
  }

  /** A hit is a stored entry with a non-empty value whose key equals, ignoring case, the
      trimmed subject some pattern captured from the trimmed text. */
  lemma RecallSound(text: string, es: seq<Entry>)
    requires Recall(text, es).Some?
    ensures var e := Recall(text, es).value;
      && e in es && e.value != ""
      && exists n, subject :: 0 <= n < |Patterns|
           && FirstMatch(Trim(text), Patterns[n], 0) == Some(subject)
           && Lower(e.key) == Lower(Trim(subject))
  {
    RecallInOrder(text, es);
    var n :| 0 <= n < |Patterns| && Try(Trim(text), es, n) == Recall(text, es);
    var subject := FirstMatch(Trim(text), Patterns[n], 0).value;
    assert Lookup(es, subject) == Recall(text, es);
  }

  /** Finding a line end in `a + b` from inside `b` is finding it in `b`. */
  lemma {:induction false} LineEndShift(a: string, b: string, from: nat)
    requires from <= |b|
    ensures LineEnd(a + b, |a| + from) == |a| + LineEnd(b, from)
    decreases |b| - from
  {
    if from < |b| {
      assert (a + b)[|a| + from] == b[from];
      if !IsLineTerminator(b[from]) {
        LineEndShift(a, b, from + 1);
      }
    }
  }

  /** A line that runs to the end of `a` goes on into `b`. */
  lemma {:induction false} LineEndJoin(a: string, b: string, from: nat)
    requires from <= |a| && LineEnd(a, from) == |a|
    ensures LineEnd(a + b, from) == LineEnd(a + b, |a|)
    decreases |a| - from
  {
    if from < |a| {
      assert (a + b)[from] == a[from];
      LineEndJoin(a, b, from + 1);
    }
  }

  /** A lower-case lead-in followed by a one-line subject and a `?` is matched at its start, and
      the whole subject is captured. */
  lemma CaptureQuestion(lead: string, subject: string)
    requires Lower(lead) == lead
    requires subject != "" && LineEnd(subject, 0) == |subject|
    ensures MatchAt(lead + subject + "?", 0, Pattern(lead, true)) == Some(subject)
  {
    var s := lead + subject + "?";
    var start := |lead|;
    QuestionLine(lead, subject);
    assert s[..start] == lead;
    assert LastQuestion(s, start + 1, |s|) == Some(|s| - 1);
    assert s[start..|s| - 1] == subject;
  }

  /** After the lead-in, the line of a one-line subject and its `?` runs to the end. */
  lemma QuestionLine(lead: string, subject: string)
    requires LineEnd(subject, 0) == |subject|
    ensures LineEnd(lead + subject + "?", |lead|) == |lead| + |subject| + 1
  {
    assert lead + subject + "?" == lead + (subject + "?");
    LineEndShift(lead, subject + "?", 0);
    LineEndJoin(subject, "?", 0);
    LineEndShift(subject, "?", 0);
  }

  /** "what is my <subject>?", for a non-empty subject on one line, is matched by the first
      pattern once trimmed, and the whole subject is captured. */
  lemma WhatIsMyCaptures(subject: string)
    requires subject != "" && LineEnd(subject, 0) == |subject|
    ensures FirstMatch(Trim(WhatIsMy + subject + "?"), Patterns[0], 0) == Some(subject)
  {
    WhatIsMyMatched(subject);
  }

  /** The question is its own trim, and the first pattern captures the subject from it. */
  lemma WhatIsMyMatched(subject: string)
    requires subject != "" && LineEnd(subject, 0) == |subject|
    ensures Trim(WhatIsMy + subject + "?") == WhatIsMy + subject + "?"
    ensures FirstMatch(WhatIsMy + subject + "?", Patterns[0], 0) == Some(subject)
  {
    LeadLower();
    QuestionTrimmed(WhatIsMy, subject);
    QuestionCaptured(WhatIsMy, subject);
  }

  /** A lower-case lead-in followed by a one-line subject and a `?` yields the subject as the
      first match. */
  lemma QuestionCaptured(lead: string, subject: string)
    requires Lower(lead) == lead
    requires subject != "" && LineEnd(subject, 0) == |subject|
    ensures FirstMatch(lead + subject + "?", Pattern(lead, true), 0) == Some(subject)
  {
    CaptureQuestion(lead, subject);
    FirstMatchHere(lead + subject + "?", Pattern(lead, true), 0);
  }

  /** A match at the start position is the first match. */
  lemma FirstMatchHere(s: string, pat: Pattern, p: nat)
    requires p <= |s| && MatchAt(s, p, pat).Some?
    ensures FirstMatch(s, pat, p) == MatchAt(s, p, pat)
  {
  }

  /** A question opening with a letter is its own trim. */
  lemma QuestionTrimmed(lead: string, subject: string)
    requires lead != "" && 'a' <= lead[0] <= 'z'
    ensures Trim(lead + subject + "?") == lead + subject + "?"
  {
    var s := lead + subject + "?";
    assert s[0] == lead[0] && s[|s| - 1] == '?';
    TrimKeeps(s);
  }

  /** The first lead-in is already in lower case, as the `i` flag needs it to be. */
  lemma LeadLower()
    ensures Lower(WhatIsMy) == WhatIsMy && 'a' <= WhatIsMy[0] <= 'z'
    ensures Patterns[0] == Pattern(WhatIsMy, true)
  {
    var lead := WhatIsMy;
    assert forall i :: 0 <= i < |lead| ==> !('A' <= lead[i] <= 'Z');
    LowerKeeps(lead);
  }

  /** Two strings are equal once both are lowered, compared character by character. */
  predicate EqualIgnoringCase(a: string, b: string) {
    |a| == |b| && (a == [] || (LowerChar(a[0]) == LowerChar(b[0]) && EqualIgnoringCase(a[1..], b[1..])))
  }

  /** ... which is the same as comparing the lowered strings. */
  lemma {:induction false} EqualIgnoringCaseLower(a: string, b: string)
    ensures EqualIgnoringCase(a, b) <==> Lower(a) == Lower(b)
  {
    if a != [] && |a| == |b| {
      EqualIgnoringCaseLower(a[1..], b[1..]);
      assert Lower(a) == [LowerChar(a[0])] + Lower(a[1..]);
      assert Lower(b) == [LowerChar(b[0])] + Lower(b[1..]);
    }
  }

  /** Case-insensitive round trip: a non-empty key stored with a non-empty value, with no other
      entry whose key equals it ignoring case, is recalled by "what is my <k>?" for every casing `k` of it. */
  lemma RecallRoundTrip(es: seq<Entry>, stored: Entry, asked: string)
    requires asked != "" && LineEnd(asked, 0) == |asked|
    requires stored in es && stored.key != "" && stored.value != ""
    requires forall e | e in es && EqualIgnoringCase(e.key, stored.key) :: e == stored
    requires EqualIgnoringCase(Trim(asked), stored.key)
    ensures Recall(WhatIsMy + asked + "?", es) == Some(stored)
  {
    assert Lookup(es, asked) == Some(stored) by {
      forall e | e in es && Lower(e.key) == Lower(stored.key)
        ensures e == stored
      {
        EqualIgnoringCaseLower(e.key, stored.key);
      }
      EqualIgnoringCaseLower(Trim(asked), stored.key);
      LookupStored(es, stored, asked);
    }
    RecallHit(es, asked, stored);
  }

  /** "what is my <subject>?" is answered from the entry the subject looks up. */
  lemma RecallHit(es: seq<Entry>, subject: string, e: Entry)
    requires subject != "" && LineEnd(subject, 0) == |subject|
    requires Lookup(es, subject) == Some(e)
    ensures Recall(WhatIsMy + subject + "?", es) == Some(e)
  {
    RecallWhatIsMy(es, subject);
  }

  /** "what is my <subject>?" is answered from whatever entry the subject looks up. */
  lemma RecallWhatIsMy(es: seq<Entry>, subject: string)
    requires subject != "" && LineEnd(subject, 0) == |subject|
    requires Lookup(es, subject).Some?
    ensures Recall(WhatIsMy + subject + "?", es) == Lookup(es, subject)
  {
    WhatIsMyCaptures(subject);
    RecallFirstPattern(WhatIsMy + subject + "?", es, subject);
  }

  /** A subject that names, ignoring case, the key of exactly one stored entry, whose key and
      value are non-empty, finds that entry. */
  lemma LookupStored(es: seq<Entry>, stored: Entry, subject: string)
    requires stored in es && stored.key != "" && stored.value != ""
    requires forall e | e in es && Lower(e.key) == Lower(stored.key) :: e == stored
    requires Lower(Trim(subject)) == Lower(stored.key)
    ensures Lookup(es, subject) == Some(stored)
  {
    var found := FindCI(es, Lower(Trim(subject)));
    assert found.Some?;
  }

  /** When the first pattern captures a subject that names a stored entry, that entry is the
      answer, whatever the later patterns would give. */
  lemma RecallFirstPattern(text: string, es: seq<Entry>, subject: string)
    requires FirstMatch(Trim(text), Patterns[0], 0) == Some(subject)
    requires Lookup(es, subject).Some?
    ensures Recall(text, es) == Lookup(es, subject)
  {
    assert Tries(Trim(text), es)[0] == Lookup(es, subject);
  }

  /** The empty key is falsy: a subject that trims to nothing finds no entry, even when the
      empty key is stored. */
  lemma EmptyKeyNotRecalled(es: seq<Entry>, subject: string)
    requires Trim(subject) == ""
    ensures Lookup(es, subject).None?
  {
    assert Lower(Trim(subject)) == "";
    var found := FindCI(es, "");
    if found.Some? {
      assert |found.value.key| == |Lower(found.value.key)| == 0;
    }
  }

  /** After `forget` of a key with no other case variant stored, asking for it misses. */
  lemma ForgetThenRecallMisses(es: seq<Entry>, key: string, subject: string)
    requires forall e :: e in es && Lower(e.key) == Lower(key) ==> e.key == key
    requires Lower(Trim(subject)) == Lower(key)
    ensures Lookup(Delete(es, key), subject).None?
  {
  }

  /** `forget` uses the exact key while recall ignores case: with "Color" and "color" both
      stored, forgetting "color" keeps "Color" ... */
  lemma ForgetLeavesCaseVariant()
    ensures Delete([Entry("Color", "red"), Entry("color", "blue")], "color") == [Entry("Color", "red")]
  {
    var a, b := Entry("Color", "red"), Entry("color", "blue");
    assert "Color"[0] != "color"[0];
    assert [a, b][1..] == [b];
  }

  /** ... and "what is my color?" is still answered from it. */
  lemma CaseVariantRecalled()
    ensures Recall(WhatIsMy + "color" + "?", [Entry("Color", "red")]) == Some(Entry("Color", "red"))
  {
    var a, k := Entry("Color", "red"), "color";
    assert LineEnd(k, 0) == |k|;
    TrimKeeps(k);
    assert Lower(a.key) == k;
    LookupStored([a], a, k);
    RecallHit([a], k, a);
  }
}
