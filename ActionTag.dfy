/**
 * The action protocol's grammar: a model reply may carry one tag `[ACTION:<name>:<params>]`,
 * found by the regular expression `\[ACTION:([^\]]+)\]` (first match only), removed from the
 * spoken text, split into a name and a params string at the first `:`, and the params string
 * read as `key=value` pairs separated by `|`.
 */
module ActionTag {
  import opened Wrappers
  import opened Text

  const Opening: string := "[ACTION:"

  /** A tag found in a reply: it opens at `start` and its closing `]` is at `close`. */
  datatype Tag = Tag(start: nat, close: nat)

  /** A parsed action: the name before the first `:` and the params string after it. */
  datatype RawAction = RawAction(name: string, paramsString: string)

  /** What the assistant does with a reply: the text to speak and the action to run later. */
  datatype Parsed = Parsed(visible: string, action: Option<RawAction>)

  /** The regular expression matches at `i`: the opening, at least one character other
      than `]`, then a `]`. */
  predicate MatchesAt(s: string, i: nat) {
    && OccursAt(s, i, Opening)
    && i + |Opening| < |s|
    && s[i + |Opening|] != ']'
    && ']' in s[i + |Opening|..]
  }

  /** `t` is the match that starts at `t.start`: its content is free of `]`. */
  predicate IsTagIn(s: string, t: Tag) {
    && t.start + |Opening| < t.close < |s|
    && OccursAt(s, t.start, Opening)
    && s[t.close] == ']'
    && ']' !in s[t.start + |Opening|..t.close]
  }

  function Content(s: string, t: Tag): string
    requires IsTagIn(s, t)
  {
    s[t.start + |Opening|..t.close]
  }

  /** The leftmost match at or after `i`, as `String.prototype.match` finds it. */
  function FindFrom(s: string, i: nat): (r: Option<Tag>)
    requires i <= |s|
    ensures r.Some? ==> i <= r.value.start && IsTagIn(s, r.value)
    ensures r.Some? ==> forall k :: i <= k < r.value.start ==> !MatchesAt(s, k)
    ensures r.None? ==> forall k :: i <= k <= |s| ==> !MatchesAt(s, k)
    decreases |s| - i
  {
    if MatchesAt(s, i) then
      var from := i + |Opening|;
      var j := IndexOf(s[from..], ']');
      assert s[from..][..j] == s[from..from + j];
      Some(Tag(i, from + j))
    else if i == |s| then None
    else FindFrom(s, i + 1)
  }

  function FindTag(s: string): Option<Tag>
  {
    FindFrom(s, 0)
  }

  /** `actionContent.split(':')`: the name is the first piece, the params string the others
      joined back with `:`. */
  function SplitContent(content: string): (r: RawAction)
    ensures r.name <= content
  {
    SplitHead(content, ':');
    var pieces := Split(content, ':');
    RawAction(pieces[0], Join(pieces[1..], ":"))
  }

  /** The reply handling of a chat turn: strip the first tag, trim, split its content. */
  function ParseReply(reply: string): (r: Parsed)
    ensures r.action.Some? ==> ':' !in r.action.value.name
  {
    match FindTag(reply)
    case None => Parsed(Trim(reply), None)
    case Some(t) =>
      SplitContentRebuilds(Content(reply, t));
      Parsed(Trim(reply[..t.start] + reply[t.close + 1..]), Some(SplitContent(Content(reply, t))))
  }

  /** With no match in the reply there is no action and the whole reply, trimmed, is spoken. */
  lemma NoTagNoAction(reply: string)
    ensures (forall k :: 0 <= k <= |reply| ==> !MatchesAt(reply, k))
        <==> ParseReply(reply).action.None?
    ensures ParseReply(reply).action.None? ==> ParseReply(reply).visible == Trim(reply)
  {
    if ParseReply(reply).action.None? {
      assert FindTag(reply).None?;
    } else {
      var t := FindTag(reply).value;
      assert MatchesAt(reply, t.start) by {
        assert ']' == reply[t.start + |Opening|..][t.close - t.start - |Opening|];
      }
    }
  }

  /** With a match, exactly the first tag is cut out of the reply; the text before and after it
      (which may hold further tags) is kept and trimmed, and the action comes from its content. */
  lemma FirstTagRemoved(reply: string)
    requires ParseReply(reply).action.Some?
    ensures exists before: string, content: string, after: string ::
      && reply == before + Opening + content + "]" + after
      && content != "" && ']' !in content
      && (forall k :: 0 <= k < |before| ==> !MatchesAt(reply, k))
      && ParseReply(reply).visible == Trim(before + after)
      && ParseReply(reply).action == Some(SplitContent(content))
  {
    var t := FindTag(reply).value;
    var before, content, after := reply[..t.start], Content(reply, t), reply[t.close + 1..];
    Pieces(reply, t.start, t.start + |Opening|, t.close);
    assert reply[t.start..t.start + |Opening|] == Opening;
    assert content != "" by {
      assert content[0] == reply[t.start + |Opening|];
    }
    assert reply == before + Opening + content + "]" + after;
  }

  /** A string is the concatenation of its pieces cut at `a`, `b`, `c` and just after `c`. */
  lemma Pieces(s: string, a: nat, b: nat, c: nat)
    requires a <= b <= c < |s|
    ensures s == s[..a] + s[a..b] + s[b..c] + [s[c]] + s[c + 1..]
  {
    assert s[..c] == s[..a] + s[a..b] + s[b..c];
    assert s == s[..c] + [s[c]] + s[c + 1..];
  }

  /** The name is the content up to the first `:`; name, `:` and the params string rebuild the
      content whenever it holds a `:`, and without one the params string is empty. */
  lemma SplitContentRebuilds(content: string)
    ensures ':' !in SplitContent(content).name
    ensures ':' in content ==>
      SplitContent(content).name + ":" + SplitContent(content).paramsString == content
    ensures ':' !in content ==>
      SplitContent(content).name == content && SplitContent(content).paramsString == ""
  {
    var pieces := Split(content, ':');
    SplitHead(content, ':');
    if ':' in content {
      JoinSplit(content, ':');
      assert pieces == [pieces[0]] + pieces[1..];
      assert Join(pieces, ":") == pieces[0] + ":" + Join(pieces[1..], ":");
    }
  }

  // ---- params: `paramsString.split('|').forEach(part => { const [key, value] = part.split('=');
  //      if (key && value) params[key.trim()] = value.trim(); })`

  /** The text before the first `=` of a part. */
  function PartKey(part: string): string
  {
    Split(part, '=')[0]
  }

  /** The text between the first and second `=` of a part; `undefined` when there is no `=`. */
  function PartValue(part: string): Option<string>
  {
    var pieces := Split(part, '=');
    if |pieces| > 1 then Some(pieces[1]) else None
  }

  /** A part is kept when the untrimmed key and value are both non-empty. */
  predicate Kept(part: string) {
    PartKey(part) != "" && PartValue(part).Some? && PartValue(part).value != ""
  }

  function AddPart(params: map<string, string>, part: string): map<string, string>
  {
    if Kept(part) then params[Trim(PartKey(part)) := Trim(PartValue(part).value)] else params
  }

  /** The params built from the parts, one after the other, later parts overwriting earlier ones. */
  function ParamsOf(parts: seq<string>): map<string, string>
  {
    if |parts| == 0 then map[] else AddPart(ParamsOf(parts[..|parts| - 1]), parts[|parts| - 1])
  }

  /** The params object a params string yields; building it never fails. */
  function Params(paramsString: string): (r: map<string, string>)
    ensures paramsString == "" ==> r == map[]
  {
    SplitHead(paramsString, '|');
    SplitHead("", '=');
    assert paramsString == "" ==> Split(paramsString, '|')[..0] == [];
    ParamsOf(Split(paramsString, '|'))
  }

  /** `params[name]` is truthy: present and not the empty string. */
  predicate Given(params: map<string, string>, name: string) {
    name in params && params[name] != ""
  }

  /** The `forEach` loop that fills the params object. */
  method CollectParams(paramsString: string) returns (params: map<string, string>)
    ensures params == Params(paramsString)
  {
    var parts := Split(paramsString, '|');
    params := map[];
    var i := 0;
    while i < |parts|
      invariant 0 <= i <= |parts|
      invariant params == ParamsOf(parts[..i])
    {
      var key, value := PartKey(parts[i]), PartValue(parts[i]);
      if key != "" && value.Some? && value.value != "" {
        params := params[Trim(key) := Trim(value.value)];
      }
      assert parts[..i + 1][..i] == parts[..i];
      assert ParamsOf(parts[..i + 1]) == AddPart(ParamsOf(parts[..i]), parts[i]);
      i := i + 1;
    }
    assert parts[..|parts|] == parts;
  }

  /** A part's key is the text before its first `=` and its value the text up to the next `=`:
      anything after a second `=` is discarded; a part without `=` has no value. */
  lemma PartFields(part: string)
    ensures '=' !in part ==> PartKey(part) == part && PartValue(part).None?
    ensures '=' in part ==>
      var i := IndexOf(part, '=');
      var rest := part[i + 1..];
      && PartKey(part) == part[..i]
      && PartValue(part) == Some(if '=' in rest then rest[..IndexOf(rest, '=')] else rest)
  {
    SplitHead(part, '=');
    if '=' in part {
      var i := IndexOf(part, '=');
      SplitHead(part[i + 1..], '=');
    }
  }

  /** A key is present exactly when some kept part has that trimmed key. */
  lemma {:induction false} ParamsDomain(parts: seq<string>, key: string)
    ensures key in ParamsOf(parts) <==>
      exists j :: 0 <= j < |parts| && Kept(parts[j]) && Trim(PartKey(parts[j])) == key
  {
    if |parts| > 0 {
      var init := parts[..|parts| - 1];
      ParamsDomain(init, key);
      if key in ParamsOf(init) {
        var j :| 0 <= j < |init| && Kept(init[j]) && Trim(PartKey(init[j])) == key;
        assert parts[j] == init[j];
      }
      if exists j :: 0 <= j < |parts| && Kept(parts[j]) && Trim(PartKey(parts[j])) == key {
        var j :| 0 <= j < |parts| && Kept(parts[j]) && Trim(PartKey(parts[j])) == key;
        if j < |parts| - 1 {
          assert init[j] == parts[j];
        }
      }
    }
  }

  /** The last kept part with a given trimmed key decides that key's value: a later duplicate
      overwrites an earlier one. */
  lemma {:induction false} ParamsLastWins(parts: seq<string>, j: nat)
    requires j < |parts| && Kept(parts[j])
    requires forall l :: j < l < |parts| ==>
      !(Kept(parts[l]) && Trim(PartKey(parts[l])) == Trim(PartKey(parts[j])))
    ensures Trim(PartKey(parts[j])) in ParamsOf(parts)
    ensures ParamsOf(parts)[Trim(PartKey(parts[j]))] == Trim(PartValue(parts[j]).value)
  {
    if j < |parts| - 1 {
      var init := parts[..|parts| - 1];
      assert init[j] == parts[j];
      forall l | j < l < |init|
        ensures !(Kept(init[l]) && Trim(PartKey(init[l])) == Trim(PartKey(init[j])))
      {
        assert init[l] == parts[l];
      }
      ParamsLastWins(init, j);
    }
  }

  /** Keys and values of the params have no white space at either end. */
  lemma {:induction false} ParamsTrimmed(parts: seq<string>, key: string)
    requires key in ParamsOf(parts)
    ensures key == Trim(key) && ParamsOf(parts)[key] == Trim(ParamsOf(parts)[key])
  {
    var init := parts[..|parts| - 1];
    var last := parts[|parts| - 1];
    assert ParamsOf(parts) == AddPart(ParamsOf(init), last);
    if Kept(last) && key == Trim(PartKey(last)) {
      TrimTwice(PartKey(last));
      TrimTwice(PartValue(last).value);
    } else {
      assert key in ParamsOf(init) && ParamsOf(parts)[key] == ParamsOf(init)[key];
      ParamsTrimmed(init, key);
    }
  }
}
