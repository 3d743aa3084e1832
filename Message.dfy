/** The message types of src/lib.rs and `Message::parse`, which so far only
    runs the tag parser and fills every other field with a fixed value. */
module Irc {
  import opened Nom
  import Parse

  /** `Tags`: tag keys mapped to tag values, both byte slices of the line. */
  type Tags = map<Input, Input>

  datatype Command = Nick | User | Privmsg | Notice | Quit | Join | Part | Topic

  datatype Source = Source(nick: Option<string>, user: Option<string>, host: string)

  datatype Message = Message(tags: Option<Tags>, source: Option<Source>, command: Command, args: seq<string>)

  /** The source `Message::parse` gives every message: no nick, no user,
      host `localhost`. */
  const PLACEHOLDER_SOURCE: Source := Source(None, None, "localhost")

  /** `Message::parse`: `opt(parse::tags)`, then fixed values for the source,
      the command and the arguments. It never fails: a failure of the tag
      parser only means the message has no tags and nothing is consumed. */
  function ParseMessage(i: Input): (r: IResult<Message>)
    ensures r.Ok?
    ensures r.out.source == Some(Source(None, None, "localhost"))
    ensures r.out.command == Nick && r.out.args == []
    ensures r.out.tags == None <==> Parse.ParseTags(i) == Err
    ensures r.out.tags == None ==> r.rest == i
    ensures r.out.tags != None ==> Parse.ParseTags(i) == Ok(r.rest, r.out.tags.value)
  {
    var tags := Opt(Parse.ParseTags(i), i);
    Ok(tags.rest, Message(tags.out, Some(PLACEHOLDER_SOURCE), Nick, []))
  }

  /** A line that does not start with `@` parses to the placeholder message
      with no tags, and nothing of it is consumed. */
  lemma UntaggedLine(i: Input)
    requires |i| == 0 || i[0] != Parse.AT
    ensures ParseMessage(i) == Ok(i, Message(None, Some(PLACEHOLDER_SOURCE), Nick, []))
  {
    assert !([Parse.AT] <= i);
  }

  /** A line `@seg rest` whose segment has no space or tab, made of a run of
      `;`-terminated bare keys followed by something that is not one, parses
      to a message whose tags are exactly the valid keys of that run, all with
      the empty value, and `rest` is what remains. */
  lemma TaggedLine(ks: seq<Input>, tail: Input, rest: Input)
    requires forall j :: 0 <= j < |ks| ==> Parse.IsBareKey(ks[j])
    requires Parse.TagEntry(tail).Err?
    requires Parse.NoSpaceOrTab(Parse.Joined(ks) + tail)
    ensures var r := ParseMessage([Parse.AT] + (Parse.Joined(ks) + tail) + [Parse.SP] + rest);
      && r.rest == rest
      && r.out.tags != None
      && (forall k :: k in r.out.tags.value <==> k in ks && Parse.IsValidTagKey(k))
      && (forall k :: k in r.out.tags.value ==> r.out.tags.value[k] == [])
  {
    Parse.TagsMapOfRun(ks, tail, rest);
  }

  /** A line whose tag segment starts with a `key=value` entry, such as
      `@id=234AB;rose :dan!d@localhost PRIVMSG #chan :Hey!`, gets an empty tag
      map: the value runs to the end of the segment, so the entry's `;` is
      missing and the iterator stops before collecting anything. */
  lemma ValuedFirstEntryYieldsNoTags(key: Input, tail: Input, rest: Input)
    requires Parse.IsBareKey(key)
    requires Parse.NoSpaceOrTab(key + [Parse.EQ] + tail)
    ensures ParseMessage([Parse.AT] + (key + [Parse.EQ] + tail) + [Parse.SP] + rest)
      == Ok(rest, Message(Some(map[]), Some(PLACEHOLDER_SOURCE), Nick, []))
  {
    var seg := key + [Parse.EQ] + tail;
    Parse.ValuedSegmentHasNoEntries(key, tail);
    Parse.ParseTagsOfLine(seg, rest);
    assert Parse.Collect(Parse.FilterMap([])) == map[];
  }
}
