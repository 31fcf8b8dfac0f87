/** `path_add_components`, `path_resolve` and `set_cwd` of userspace/session.c on their buffers. */
module Shell {
  import opened Bytes
  import opened Options
  import opened Qfs2Volume
  import opened Qfs2Path
  import opened PathResolve

  /** The characters before the first zero of a buffer. */
  function CString(buffer: seq<byte>): (s: Text)
    ensures IsCString(s)
  {
    buffer[..IndexOf(buffer, 0)]
  }

  lemma CStringIs(buffer: seq<byte>, n: nat)
    requires n < |buffer| && buffer[n] == 0 && IsCString(buffer[..n])
    ensures CString(buffer) == buffer[..n]
  {
    forall i | 0 <= i < n
      ensures buffer[i] != 0
    {
      assert buffer[i] == buffer[..n][i];
    }
    IndexIs(buffer, 0, n);
  }

  ghost predicate HeldAt(parts: array2<byte>, i: nat, name: Name)
    requires i < parts.Length0 == MAX_PARTS && parts.Length1 == PART_SIZE
    reads parts
  {
    |name| < PART_SIZE && parts[i, |name|] == 0 && forall k :: 0 <= k < |name| ==>
      parts[i, k] == name[k] && name[k] != 0
  }

  /** The rows of the component buffer. */
  ghost predicate Held(parts: array2<byte>, names: seq<Name>)
    reads parts
  {
    && parts.Length0 == MAX_PARTS && parts.Length1 == PART_SIZE && |names| <= MAX_PARTS
    && forall i :: 0 <= i < |names| ==> HeldAt(parts, i, names[i])
  }

  /** Copies one component into its row. */
  method PutPart(text: Text, start: nat, length: nat, parts: array2<byte>, row: nat, ghost names: seq<Name>)
    requires IsCString(text) && start + length <= |text| && length < PART_SIZE && row == |names| < MAX_PARTS
             && Held(parts, names)
    modifies parts
    ensures Held(parts, names + [text[start..start + length]])
  {
    var character := 0;
    while character < length
      invariant 0 <= character <= length
      invariant forall i, k :: 0 <= i < row && 0 <= k < PART_SIZE ==> parts[i, k] == old(parts[i, k])
      invariant forall k :: 0 <= k < character ==> parts[row, k] == text[start + k]
    {
      parts[row, character] := text[start + character];
      character := character + 1;
    }
    parts[row, length] := 0;
    forall i | 0 <= i < row
      ensures HeldAt(parts, i, names[i])
    {
      assert old(HeldAt(parts, i, names[i]));
    }
  }

  /** The end of the token at `start`, unless a forbidden character comes first. */
  method TokenEnd(text: Text, start: nat) returns (ok: bool, index: nat)
    requires start <= |text|
    ensures index == start + IndexOf(text[start..], SEPARATOR) || !ok
    ensures start <= index <= |text|
    ensures ok <==> Clean(text[start..start + IndexOf(text[start..], SEPARATOR)])
  {
    ghost var rest := text[start..];
    index := start;
    while index < |text| && text[index] != SEPARATOR
      invariant start <= index <= |text|
      invariant forall i :: start <= i < index ==> text[i] != SEPARATOR && !Forbidden(text[i])
    {
      if text[index] == SLASH || text[index] == BACKSLASH || text[index] == COLON {
        BeforeSeparator(text, start, index);
        return false, index;
      }
      index := index + 1;
    }
    IndexIs(rest, SEPARATOR, index - start);
    ok := true;
  }

  lemma BeforeSeparator(text: Text, start: nat, index: nat)
    requires start <= index < |text| && Forbidden(text[index]) && forall i :: start <= i <= index ==>
               text[i] != SEPARATOR
    ensures !Clean(text[start..start + IndexOf(text[start..], SEPARATOR)])
  {
    var rest := text[start..];
    var n := IndexOf(rest, SEPARATOR);
    assert forall i :: 0 <= i <= index - start ==> rest[i] != SEPARATOR;
    assert n > index - start;
    assert rest[..n][index - start] == text[index];
    assert text[start..start + n] == rest[..n];
  }

  /** What one turn of the loop does with a token. */
  lemma WalkStep(names: seq<Name>, text: Text, start: nat, index: nat)
    requires start < |text| && index == start + IndexOf(text[start..], SEPARATOR)
    ensures index <= |text|
    ensures Walk(names, Tokens(text[start..]))
            == match Enter(names, text[start..index])
               case None => None
               case Some(next) => Walk(next, Tokens(text[if index < |text| then index + 1 else index..]))
  {
    var rest := text[start..];
    var n := index - start;
    assert rest[..n] == text[start..index];
    if n == |rest| {
      assert rest[..n] == rest && Tokens(rest) == [rest];
      assert text[index..] == [] && Tokens([]) == [];
    } else {
      assert rest[n + 1..] == text[index + 1..];
    }
    var tokens := Tokens(rest);
    assert tokens[0] == text[start..index];
    assert tokens[1..] == Tokens(text[if index < |text| then index + 1 else index..]);
  }

  /** What the loop does with the token between `start` and `start + length`. */
  method TakeToken(text: Text, start: nat, length: nat, parts: array2<byte>, count: nat, ghost before: seq<Name>)
    returns (ok: bool, n: nat, ghost names: seq<Name>)
    requires IsCString(text) && start + length <= |text| && Clean(text[start..start + length])
    requires Held(parts, before) && count == |before|
    modifies parts
    ensures ok <==> Enter(before, text[start..start + length]).Some?
    ensures ok ==> Held(parts, names) && n == |names| && Enter(before, text[start..start + length]) == Some(names)
  {
    hide HeldAt;
    hide Clean;
    ghost var token := text[start..start + length];
    n, names := count, before;
    ok := true;
    if length == 1 && text[start] == DOT {
      assert token == [DOT];
    } else if length == 2 && text[start] == DOT && text[start + 1] == DOT {
      assert token == [DOT, DOT];
      if n != 0 {
        n := n - 1;
        names := names[..n];
      }
    } else if length != 0 {
      assert |token| == length && token[0] == text[start];
      assert length >= 2 ==> token[1] == text[start + 1];
      if n >= MAX_PARTS || length >= PART_SIZE { return false, n, names; }
      PutPart(text, start, length, parts, n, names);
      names := names + [token];
      n := n + 1;
    }
  }

  /** `path_add_components` */
  method AddComponents(text: Text, parts: array2<byte>, count: nat, ghost before: seq<Name>)
    returns (ok: bool, n: nat, ghost names: seq<Name>)
    requires IsCString(text) && Held(parts, before) && count == |before|
    modifies parts
    ensures ok <==> Walk(before, Tokens(text)).Some?
    ensures ok ==> Held(parts, names) && n == |names| && Walk(before, Tokens(text)) == Some(names)
  {
    hide Held;
    hide IsCString;
    hide Walk;
    hide Tokens;
    n, names := count, before;
    var index := 0;
    assert text[0..] == text;
    while index < |text|
      invariant 0 <= index <= |text| && Held(parts, names) && n == |names|
      invariant Walk(before, Tokens(text)) == Walk(names, Tokens(text[index..]))
      decreases |text| - index
    {
      var start: nat := index;
      var end;
      ok, end := TokenEnd(text, start);
      WalkStep(names, text, start, start + IndexOf(text[start..], SEPARATOR));
      if !ok { return; }
      ok, n, names := TakeToken(text, start, end - start, parts, n, names);
      if !ok { return; }
      index := if end < |text| then end + 1 else end;
    }
    ok := true;
    assert text[index..] == [];
    WalkNothing(names);
  }

  lemma WalkNothing(names: seq<Name>)
    ensures Walk(names, Tokens([])) == Some(names)
  {
  }

  // ---------------------------------------------------------------------------------------------
  // Writing the result
  // ---------------------------------------------------------------------------------------------

  lemma {:induction false} JoinPrefix(drive: Text, names: seq<Name>, k: nat)
    requires k < |names|
    ensures Join(drive, names[..k + 1]) == Join(drive, names[..k]) + (if k > 0 then [SEPARATOR] else []) + names[k]
    ensures Join(drive, names[..k + 1]) <= Join(drive, names)
    decreases |names| - k
  {
    var init := names[..k + 1];
    assert init[..k] == names[..k] && init[k] == names[k];
    if k == 0 {
      assert names[..0] == [] && Join(drive, names[..0]) == drive + [COLON];
    }
    if k + 1 < |names| {
      JoinPrefix(drive, names, k + 1);
    } else {
      assert names[..k + 1] == names;
    }
  }

  /** Appends one component to the output; fails when it does not fit. */
  method WritePart(parts: array2<byte>, part: nat, output: array<byte>, length: nat, ghost name: Name)
    returns (ok: bool, n: nat)
    requires parts.Length0 == MAX_PARTS && parts.Length1 == PART_SIZE && part < MAX_PARTS && HeldAt(parts, part, name)
    requires output.Length == PATH_MAX && length < PATH_MAX
    modifies output
    ensures ok <==> length + |name| < PATH_MAX
    ensures ok ==> n == length + |name| && output[..n] == old(output[..length]) + name
  {
    var character := 0;
    n := length;
    while parts[part, character] != 0
      invariant 0 <= character <= |name| && n == length + character < PATH_MAX
      invariant output[..n] == old(output[..length]) + name[..character]
      decreases |name| - character
    {
      if n + 1 >= PATH_MAX { return false, n; }
      output[n] := parts[part, character];
      n := n + 1;
      character := character + 1;
    }
    ok := true;
  }

  method WriteDrive(drive: Text, output: array<byte>) returns (n: nat)
    requires KnownDrive(drive) && output.Length == PATH_MAX
    modifies output
    ensures n == |drive| + 1 && output[..n] == drive + [COLON]
  {
    n := 0;
    while n < |drive| && n + 1 < PATH_MAX
      invariant 0 <= n <= |drive| && output[..n] == drive[..n]
    {
      output[n] := drive[n];
      n := n + 1;
    }
    output[n] := COLON;
    n := n + 1;
  }

  lemma JoinNothing(drive: Text)
    ensures Join(drive, []) == drive + [COLON]
  {
  }

  /** The output loops of `path_resolve`. */
  method WriteJoin(drive: Text, parts: array2<byte>, count: nat, output: array<byte>, ghost names: seq<Name>)
    returns (ok: bool)
    requires KnownDrive(drive) && Held(parts, names) && count == |names| && output.Length == PATH_MAX
    modifies output
    ensures ok <==> |Join(drive, names)| < PATH_MAX
    ensures ok ==> CString(output[..]) == Join(drive, names)
  {
    hide Join;
    JoinNothing(drive);
    var length: nat := WriteDrive(drive, output);
    assert names[..0] == [];
    var part := 0;
    while part < count
      invariant 0 <= part <= count && length < PATH_MAX
      invariant output[..length] == Join(drive, names[..part]) && length == |Join(drive, names[..part])|
    {
      JoinPrefix(drive, names, part);
      if part != 0 {
        if length + 1 >= PATH_MAX { return false; }
        output[length] := SEPARATOR;
        length := length + 1;
      }
      var ok1, n := WritePart(parts, part, output, length, names[part]);
      if !ok1 { return false; }
      length := n;
      part := part + 1;
    }
    assert names[..count] == names;
    output[length] := 0;
    assert output[..length] == Join(drive, names);
    JoinCString(parts, drive, names);
    CStringIs(output[..], length);
    ok := true;
  }

  lemma {:induction false} JoinPartsCString(parts: array2<byte>, names: seq<Name>)
    requires Held(parts, names)
    ensures IsCString(JoinParts(names))
    decreases |names|
  {
    if |names| == 1 {
      assert HeldAt(parts, 0, names[0]);
    } else if |names| > 1 {
      JoinPartsCString(parts, names[..|names| - 1]);
      assert HeldAt(parts, |names| - 1, names[|names| - 1]);
    }
  }

  lemma JoinCString(parts: array2<byte>, drive: Text, names: seq<Name>)
    requires KnownDrive(drive) && Held(parts, names)
    ensures IsCString(Join(drive, names))
  {
    JoinPartsCString(parts, names);
  }

  // ---------------------------------------------------------------------------------------------
  // The current directory
  // ---------------------------------------------------------------------------------------------

  const HOME: Text := [0x68, 0x6f, 0x6d, 0x65]
  const QUANTA: Text := [0x71, 0x75, 0x61, 0x6e, 0x74, 0x61]

  method SkipBlanks(input: Text) returns (n: nat)
    ensures n <= |input| && input[n..] == DropBlanks(input)
  {
    n := 0;
    assert input[0..] == input;
    while n < |input| && input[n] == BLANK
      invariant 0 <= n <= |input| && DropBlanks(input[n..]) == DropBlanks(input)
    {
      n := n + 1;
    }
  }

  /** The loop that looks for a drive; it stops with an error at a slash. */
  method ScanDrive(input: Text) returns (ok: bool, n: nat)
    ensures ok <==> SLASH !in input[..DriveEnd(input)]
    ensures ok ==> n == DriveEnd(input)
  {
    n := 0;
    assert input[0..] == input;
    while n < |input| && input[n] != COLON && input[n] != SEPARATOR
      invariant 0 <= n <= |input| && DriveEnd(input) == n + DriveEnd(input[n..])
      invariant SLASH !in input[..n]
    {
      if input[n] == SLASH {
        assert input[..DriveEnd(input)][n] == SLASH;
        return false, n;
      }
      assert input[..n + 1] == input[..n] + [input[n]];
      n := n + 1;
    }
    ok := true;
  }

  class Terminal {
    const cwd: array<byte>
    var activeDrive: Text

    ghost function Cwd(): Text
      reads this, cwd
    {
      CString(cwd[..])
    }

    /** The current directory is a canonical path on the active drive. */
    ghost predicate Valid()
      reads this, cwd
    {
      && cwd.Length == PATH_MAX && KnownDrive(activeDrive)
      && exists parts :: PartsOk(parts) && Cwd() == Join(activeDrive, parts)
    }

    constructor (drive: Text)
      requires KnownDrive(drive)
      ensures Valid() && activeDrive == drive && Cwd() == Join(drive, [HOME, QUANTA])
    {
      activeDrive := drive;
      ghost var path := Join(drive, [HOME, QUANTA]);
      var text := drive + [COLON] + HOME + [SEPARATOR] + QUANTA;
      cwd := new byte[PATH_MAX](i => if 0 <= i < |text| then text[i] else 0);
      new;
      HomePath(drive);
      assert cwd[..|text|] == text;
      CStringIs(cwd[..], |text|);
    }

    /** `path_resolve`; `beyond` is the byte behind the input's terminating zero. */
    method ResolveInto(input: Text, beyond: byte, output: array<byte>) returns (ok: bool)
      requires Valid() && IsCString(input) && output.Length == PATH_MAX && output != cwd
      modifies output
      ensures Valid() && ok == ResolvePath(Cwd(), activeDrive, input, beyond).Some?
      ensures ok ==> CString(output[..]) == ResolvePath(Cwd(), activeDrive, input, beyond).value
    {
      hide Walk;
      hide Tokens;
      hide Join;
      hide PartsOk;
      var parts := new byte[MAX_PARTS, PART_SIZE];
      var count: nat := 0;
      ghost var names: seq<Name> := [];
      var skipped := SkipBlanks(input);
      var rest := input[skipped..];
      var slashless, d := ScanDrive(rest);
      if !slashless { return false; }
      if d < |rest| && rest[d] == COLON {
        if d == 0 || d >= 8 { return false; }
        var requested := rest[..d];
        if (requested != PRIME && requested != LIVE) || requested != activeDrive { return false; }
        rest := rest[d + 1..];
      } else {
        var second := if |rest| == 0 then beyond else if |rest| == 1 then 0 else rest[1];
        if |rest| > 0 && (rest[0] == SLASH || rest[0] == BACKSLASH) { NoSlashFirst(rest, d); return false; }
        if second == COLON { return false; }
        var text := CurrentText();
        var c := IndexOf(text, COLON);
        if c == |text| { return false; }
        ok, count, names := AddComponents(text[c + 1..], parts, 0, []);
        if !ok { return; }
      }
      ok, count, names := AddComponents(rest, parts, count, names);
      if !ok { return; }
      ok := WriteJoin(activeDrive, parts, count, output, names);
    }

    method CurrentText() returns (text: Text)
      ensures text == Cwd()
    {
      text := CString(cwd[..]);
    }

    /** `set_cwd` */
    method SetCwd(path: Text)
      requires Valid() && IsCString(path) && |path| < PATH_MAX
      modifies cwd
      ensures Cwd() == path
    {
      var index := 0;
      while index < |path| && index + 1 < PATH_MAX
        invariant 0 <= index <= |path| && cwd[..index] == path[..index]
      {
        cwd[index] := path[index];
        index := index + 1;
      }
      cwd[index] := 0;
      assert cwd[..index] == path;
      CStringIs(cwd[..], index);
    }

    /** The cd command; `directories` are the paths that the kernel reports as directories.  The current
        directory stays canonical, and changes exactly when the target resolves to a directory. */
    method ChangeDirectory(args: Text, beyond: byte, directories: set<Text>) returns (ok: bool)
      requires Valid() && IsCString(args)
      modifies cwd
      ensures Valid()
      ensures var target := ResolvePath(old(Cwd()), activeDrive, if args == [] then old(Cwd()) else args, beyond);
              && (ok <==> target.Some? && target.value in directories)
              && Cwd() == (if ok then target.value else old(Cwd()))
    {
      var path := new byte[PATH_MAX];
      var current := CurrentText();
      ok := ResolveInto(if args == [] then current else args, beyond, path);
      if !ok { return; }
      var target := CString(path[..]);
      ok := target in directories;
      if !ok { return; }
      ResolvedIsJoin(Cwd(), activeDrive, if args == [] then current else args, beyond);
      SetCwd(target);
    }
  }

  lemma ResolvedIsJoin(cwd: Text, drive: Text, input: Text, beyond: byte)
    requires ResolvePath(cwd, drive, input, beyond).Some?
    ensures |ResolvePath(cwd, drive, input, beyond).value| < PATH_MAX
    ensures exists parts :: PartsOk(parts) && ResolvePath(cwd, drive, input, beyond).value == Join(drive, parts)
  {
    ResolvedOk(cwd, drive, input, beyond);
    hide Resolved;
    hide PartsOk;
  }

  lemma NoSlashFirst(rest: Text, d: nat)
    requires |rest| > 0 && d == DriveEnd(rest) && SLASH !in rest[..d]
    ensures rest[0] != SLASH
  {
    if d > 0 { assert rest[..d][0] in rest[..d]; }
  }

  lemma HomePath(drive: Text)
    requires KnownDrive(drive)
    ensures PartsOk([HOME, QUANTA])
    ensures Join(drive, [HOME, QUANTA]) == drive + [COLON] + HOME + [SEPARATOR] + QUANTA
    ensures IsCString(Join(drive, [HOME, QUANTA]))
  {
    var parts := [HOME, QUANTA];
    assert parts[..1] == [HOME];
    assert JoinParts(parts) == HOME + [SEPARATOR] + QUANTA;
    assert Lacks(HOME, SEPARATOR) && Lacks(QUANTA, SEPARATOR);
  }
}
