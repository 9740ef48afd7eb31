/** `CommandLineEngine`: a table of named commands, each with an optional
    regular-expression argument format. A command line is split into the
    command name and the rest; the rest is matched against the format and
    the captured groups become the action's arguments.

    Regular expressions are not modelled: `find(format, input)` is a
    parameter standing for `Pattern.compile(format).matcher(input).find()`,
    giving the capture groups 1.. of the first match (a group that did not
    take part is `None`), or `None` when nothing matches. */
module CommandLineEngines {
  import opened Base

  /** `CommandLineEntry`: a command's name, its format (null when the command
      only takes pre-parsed arguments) and its action. */
  datatype Entry<A> = Entry(name: string, format: Option<string>, action: A)

  /** What the engine hands to `CommandLineAction.doAction`. */
  datatype Invocation<A> = Invocation(action: A, args: seq<Option<string>>)

  /** `String.indexOf(c)`: the first index of `c`, or -1. */
  function IndexOf(s: string, c: char): (i: int)
    ensures -1 <= i < |s|
    ensures i == -1 <==> c !in s
    ensures 0 <= i ==> s[i] == c && c !in s[..i]
  {
    if s == [] then -1
    else if s[0] == c then 0
    else
      var j := IndexOf(s[1..], c);
      if j == -1 then -1
      else
        assert s[..j + 1] == [s[0]] + s[1..][..j];
        j + 1
  }

  /** Java's `trim` removes the characters up to U+0020 from both ends. */
  predicate IsSpace(c: char)
  {
    c <= ' '
  }

  function TrimStart(s: string): (t: string)
    ensures |t| <= |s| && t == s[|s| - |t|..]
    ensures t != [] ==> !IsSpace(t[0])
    ensures forall k :: 0 <= k < |s| - |t| ==> IsSpace(s[k])
  {
    if s != [] && IsSpace(s[0]) then TrimStart(s[1..]) else s
  }

  function TrimEnd(s: string): (t: string)
    ensures |t| <= |s| && t == s[..|t|]
    ensures t != [] ==> !IsSpace(t[|t| - 1])
    ensures forall k :: |t| <= k < |s| ==> IsSpace(s[k])
  {
    if s != [] && IsSpace(s[|s| - 1]) then TrimEnd(s[..|s| - 1]) else s
  }

  function Trim(s: string): string
  {
    TrimEnd(TrimStart(s))
  }

  /** What `trim` leaves: the slice s[i..j] of the input, neither end of
      which is blank, with only blanks cut away on either side. */
  lemma {:induction false} TrimIsSlice(s: string) returns (i: nat, j: nat)
    ensures i <= j <= |s| && Trim(s) == s[i..j]
    ensures forall k :: 0 <= k < i ==> IsSpace(s[k])
    ensures forall k :: j <= k < |s| ==> IsSpace(s[k])
    ensures Trim(s) != [] ==> !IsSpace(Trim(s)[0]) && !IsSpace(Trim(s)[|Trim(s)| - 1])
  {
    var u := TrimStart(s);
    i := |s| - |u|;
    var t := TrimEnd(u);
    j := i + |t|;
    SliceOfSlice(s, i, |t|);
    forall k | j <= k < |s| ensures IsSpace(s[k]) {
      assert s[k] == u[k - i];
    }
  }

  lemma {:induction false} SliceOfSlice(s: string, i: nat, n: nat)
    requires i + n <= |s|
    ensures s[i..][..n] == s[i..i + n]
  {
  }

  /** The first step of `doCommandLine`: without a space the whole trimmed
      text is the command and there are no arguments; otherwise the command
      is everything before the first space and the rest everything after it. */
  function SplitCommand(text: string): (string, string)
  {
    var spaceIndex := IndexOf(text, ' ');
    if spaceIndex == -1 then (Trim(text), "")
    else (text[..spaceIndex], text[spaceIndex + 1..])
  }

  /** Splitting at the first space loses only that space. */
  lemma SplitCommandRoundTrip(text: string)
    requires ' ' in text
    ensures SplitCommand(text).0 + " " + SplitCommand(text).1 == text
    ensures ' ' !in SplitCommand(text).0
  {
    var i := IndexOf(text, ' ');
    assert text == text[..i] + [text[i]] + text[i + 1..];
  }

  /** A text without spaces is a command with no argument text, and it is
      found by its name even with surrounding tabs or line breaks. */
  lemma SplitCommandWithoutSpace(text: string)
    requires ' ' !in text
    ensures SplitCommand(text) == (Trim(text), "")
    ensures text != [] && !IsSpace(text[0]) && !IsSpace(text[|text| - 1]) ==> SplitCommand(text).0 == text
  {
  }

  class CommandLineEngine<A> {
    var actionTable: map<string, Entry<A>>

    /** An engine with no commands. */
    constructor ()
      ensures actionTable == map[]
    {
      actionTable := map[];
    }

    /** Registers a command under its name, replacing any earlier one. */
    method AddAction(name: string, argFormat: Option<string>, action: A)
      modifies this
      ensures actionTable == old(actionTable)[name := Entry(name, argFormat, action)]
    {
      actionTable := actionTable[name := Entry(name, argFormat, action)];
    }

    /** `doCommandLine(controller, command, args)`: runs the named command
        with arguments already split. */
    method DoCommand(command: string, args: seq<Option<string>>) returns (r: Result<Invocation<A>>)
      ensures command !in actionTable <==> r == Failure(NoSuchCommand(command))
      ensures r.Failure? ==> r == Failure(NoSuchCommand(command))
      ensures r.Success? ==> r == Success(Invocation(actionTable[command].action, args))
    {
      if command !in actionTable {
        return Failure(NoSuchCommand(command));
      }
      var entry := actionTable[command];
      return Success(Invocation(entry.action, args));
    }

    /** `doCommandLine(controller, text)`: looks the command up, matches the
        rest of the line against its format and runs it with the groups. */
    method DoCommandLine(text: string, find: (string, string) -> Option<seq<Option<string>>>)
      returns (r: Result<Invocation<A>>)
      ensures SplitCommand(text).0 !in actionTable ==> r == Failure(NoSuchCommand(SplitCommand(text).0))
      ensures SplitCommand(text).0 in actionTable ==>
        var entry := actionTable[SplitCommand(text).0];
        var rest := SplitCommand(text).1;
        if entry.format.None? then r == Failure(NullPointer)
        else if find(entry.format.value, rest).None? then r == Failure(CommandFormat(text, entry.format.value))
        else r == Success(Invocation(entry.action, find(entry.format.value, rest).value))
    {
      var command, rest;
      var spaceIndex := IndexOf(text, ' ');
      if spaceIndex == -1 {
        command := Trim(text);
        rest := "";
      } else {
        command := text[..spaceIndex];
        rest := text[spaceIndex + 1..];
      }
      if command !in actionTable {
        return Failure(NoSuchCommand(command));
      }
      var entry := actionTable[command];
      if entry.format.None? {
        return Failure(NullPointer);
      }
      var matched := find(entry.format.value, rest);
      if matched.None? {
        return Failure(CommandFormat(text, entry.format.value));
      }
      var groups := matched.value;
      var args: seq<Option<string>> := [];
      var i := 1;
      while i <= |groups|
        invariant 1 <= i <= |groups| + 1
        invariant args == groups[..i - 1]
      {
        args := args + [groups[i - 1]];
        i := i + 1;
      }
      assert groups[..|groups|] == groups;
      return Success(Invocation(entry.action, args));
    }
  }
}
