/**
 The roster file `~/.bees` (bees.py): three fields written by `_write_server_list`
 and read back by `_read_server_list`. The file system is reduced to the text
 of the file, or None when it does not exist.
 */
module Roster {
  import opened Wrappers
  import opened Text

  /** What the roster records: the SSH user, the EC2 key pair, the instance ids. */
  datatype Roster = Roster(username: string, keyName: string, instanceIds: seq<string>)

  /** `_write_server_list`: the user and key name on a line each, then the ids joined by newlines. */
  function WriteServerList(username: string, keyName: string, instanceIds: seq<string>): string {
    username + "\n" + (keyName + "\n" + Join(instanceIds, '\n'))
  }

  /**
   `_read_server_list`: None (the source's `(None, None, None)`) when there is no
   file; otherwise two stripped lines and the rest of the file split on newlines.
   */
  function ReadServerList(file: Option<string>): (r: Option<Roster>)
    ensures r.Some? <==> file.Some?
    ensures r.Some? ==> Trimmed(r.value.username) && Trimmed(r.value.keyName)
    ensures r.Some? ==> |r.value.instanceIds| >= 1
    ensures r.Some? ==> forall i :: 0 <= i < |r.value.instanceIds| ==> '\n' !in r.value.instanceIds[i]
  {
    match file
    case None => None
    case Some(text) =>
      var (first, afterFirst) := ReadLine(text);
      var (second, rest) := ReadLine(afterFirst);
      Some(Roster(Strip(first), Strip(second), Split(rest, '\n')))
  }

  /** Python's truth value of the `instance_ids` the roster read gives: a non-empty list. */
  predicate Mobilized(r: Option<Roster>) {
    r.Some? && |r.value.instanceIds| > 0
  }

  /**
   Every `if instance_ids:` guard in bees.py depends only on whether the file
   exists: a roster file always reads back at least one id, if only `""`.
   */
  lemma MobilizedIffFile(file: Option<string>)
    ensures Mobilized(ReadServerList(file)) <==> file.Some?
  {
  }

  lemma ReadStrippedLine(a: string, b: string)
    requires LineValue(a)
    ensures ReadLine(a + "\n" + b) == (a + "\n", b)
    ensures Strip(a + "\n") == a
  {
    ReadLineOf(a, b);
    StripTrailingSpace(a, "\n");
  }

  /**
   Reading back what `_write_server_list` wrote gives the same user, key and ids,
   provided there is at least one id and none contains a newline.
   */
  lemma RosterRoundTrip(username: string, keyName: string, instanceIds: seq<string>)
    requires LineValue(username) && LineValue(keyName)
    requires |instanceIds| >= 1 && forall i :: 0 <= i < |instanceIds| ==> '\n' !in instanceIds[i]
    ensures ReadServerList(Some(WriteServerList(username, keyName, instanceIds)))
            == Some(Roster(username, keyName, instanceIds))
  {
    var rest := Join(instanceIds, '\n');
    ReadStrippedLine(username, keyName + "\n" + rest);
    ReadStrippedLine(keyName, rest);
    SplitJoin(instanceIds, '\n');
  }

  /** A roster written with no instances reads back one empty id, which counts as mobilized. */
  lemma EmptyRosterReadsBlankId(username: string, keyName: string)
    requires LineValue(username) && LineValue(keyName)
    ensures ReadServerList(Some(WriteServerList(username, keyName, [])))
            == Some(Roster(username, keyName, [""]))
    ensures Mobilized(ReadServerList(Some(WriteServerList(username, keyName, []))))
  {
    ReadStrippedLine(username, keyName + "\n" + "");
    ReadStrippedLine(keyName, "");
  }
}
