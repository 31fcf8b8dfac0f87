/** The shell's path resolution (userspace/session.c), and its agreement with the kernel's path check
    (kernel/core/task.c) and with the two path parsers of the file system (kernel/core/qfs2.c). */
module PathResolve {
  import opened Bytes
  import opened Options
  import opened Qfs2Format
  import opened Qfs2Volume
  import opened Qfs2Path

  const MAX_PARTS: nat := 8
  const PART_SIZE: nat := 24
  const DOT: byte := 0x2e
  const BLANK: byte := 0x20

  /** The pieces between separators. */
  function Tokens(text: Text): seq<Text>
    decreases |text|
  {
    var n := IndexOf(text, SEPARATOR);
    if n == |text| then (if text == [] then [] else [text]) else [text[..n]] + Tokens(text[n + 1..])
  }

  /** One token applied to a directory: stay, go up (the root is its own parent), or go down. */
  function Enter(parts: seq<Name>, token: Text): Option<seq<Name>> {
    if !Clean(token) then None
    else if token == [] || token == [DOT] then Some(parts)
    else if token == [DOT, DOT] then Some(if parts == [] then [] else parts[..|parts| - 1])
    else if |parts| >= MAX_PARTS || |token| >= PART_SIZE then None
    else Some(parts + [token])
  }

  function Walk(parts: seq<Name>, tokens: seq<Text>): Option<seq<Name>>
    decreases |tokens|
  {
    if tokens == [] then Some(parts)
    else
      match Enter(parts, tokens[0])
      case None => None
      case Some(next) => Walk(next, tokens[1..])
  }

  function JoinParts(parts: seq<Name>): Text {
    if parts == [] then []
    else if |parts| == 1 then parts[0]
    else JoinParts(parts[..|parts| - 1]) + [SEPARATOR] + parts[|parts| - 1]
  }

  /** The canonical text of a directory or file. */
  function Join(drive: Text, parts: seq<Name>): Text { drive + [COLON] + JoinParts(parts) }

  function DropBlanks(input: Text): Text {
    if input != [] && input[0] == BLANK then DropBlanks(input[1..]) else input
  }

  /** The end of a possible drive name. */
  function DriveEnd(input: Text): (n: nat)
    ensures n <= |input|
    ensures forall i :: 0 <= i < n ==> input[i] != COLON && input[i] != SEPARATOR
    ensures n < |input| ==> input[n] == COLON || input[n] == SEPARATOR
  {
    if input == [] || input[0] == COLON || input[0] == SEPARATOR then 0 else 1 + DriveEnd(input[1..])
  }

  /** The components that `path_resolve` arrives at.  `beyond` is the byte behind the terminating zero
      of the input, which the code reads when nothing but blanks was typed. */
  function Resolved(cwd: Text, drive: Text, input: Text, beyond: byte): Option<seq<Name>> {
    var t := DropBlanks(input);
    var d := DriveEnd(t);
    if SLASH in t[..d] then None
    else if d < |t| && t[d] == COLON then
      if KnownDrive(t[..d]) && t[..d] == drive then Walk([], Tokens(t[d + 1..])) else None
    else if (t == [] && beyond == COLON) || (t != [] && t[0] == BACKSLASH) || (|t| > 1 && t[1] == COLON) then None
    else
      var c := IndexOf(cwd, COLON);
      if c == |cwd| then None
      else
        match Walk([], Tokens(cwd[c + 1..]))
        case None => None
        case Some(parts) => Walk(parts, Tokens(t))
  }

  /** `path_resolve` */
  function ResolvePath(cwd: Text, drive: Text, input: Text, beyond: byte): Option<Text> {
    match Resolved(cwd, drive, input, beyond)
    case None => None
    case Some(parts) => if |Join(drive, parts)| < PATH_MAX then Some(Join(drive, parts)) else None
  }

  // ---------------------------------------------------------------------------------------------
  // Canonical components
  // ---------------------------------------------------------------------------------------------

  /** A component that can stand in a canonical path. */
  predicate PartOk(part: Name) {
    0 < |part| < PART_SIZE && Clean(part) && part != [DOT] && part != [DOT, DOT] && Lacks(part, SEPARATOR)
  }

  predicate PartsOk(parts: seq<Name>) {
    |parts| <= MAX_PARTS && forall i :: 0 <= i < |parts| ==> PartOk(parts[i])
  }

  predicate TokensOk(tokens: seq<Text>) {
    forall i :: 0 <= i < |tokens| ==> Lacks(tokens[i], SEPARATOR)
  }

  lemma {:induction false} TokensPlain(text: Text)
    ensures TokensOk(Tokens(text))
    decreases |text|
  {
    var n := IndexOf(text, SEPARATOR);
    if n < |text| { TokensPlain(text[n + 1..]); }
  }

  lemma {:induction false} WalkOk(parts: seq<Name>, tokens: seq<Text>)
    requires PartsOk(parts) && TokensOk(tokens) && Walk(parts, tokens).Some?
    ensures PartsOk(Walk(parts, tokens).value)
    decreases |tokens|
  {
    if tokens != [] { WalkOk(Enter(parts, tokens[0]).value, tokens[1..]); }
  }

  /** Whatever is typed, the components are canonical. */
  lemma ResolvedOk(cwd: Text, drive: Text, input: Text, beyond: byte)
    requires Resolved(cwd, drive, input, beyond).Some?
    ensures PartsOk(Resolved(cwd, drive, input, beyond).value)
  {
    var t := DropBlanks(input);
    var d := DriveEnd(t);
    hide Walk;
    hide Tokens;
    if d < |t| && t[d] == COLON {
      TokensPlain(t[d + 1..]);
      WalkOk([], Tokens(t[d + 1..]));
    } else {
      var c := IndexOf(cwd, COLON);
      TokensPlain(cwd[c + 1..]);
      WalkOk([], Tokens(cwd[c + 1..]));
      TokensPlain(t);
      WalkOk(Walk([], Tokens(cwd[c + 1..])).value, Tokens(t));
    }
  }

  /** Directories can be entered one after the other or in one go. */
  lemma {:induction false} WalkAppend(parts: seq<Name>, a: seq<Text>, b: seq<Text>)
    ensures Walk(parts, a + b) == match Walk(parts, a) case None => None case Some(next) => Walk(next, b)
    decreases |a|
  {
    if a == [] {
      assert a + b == b;
    } else {
      assert (a + b)[0] == a[0] && (a + b)[1..] == a[1..] + b;
      if Enter(parts, a[0]).Some? { WalkAppend(Enter(parts, a[0]).value, a[1..], b); }
    }
  }

  lemma TokensStep(x: Text, rest: Text)
    requires Lacks(x, SEPARATOR)
    ensures Tokens(x + [SEPARATOR] + rest) == [x] + Tokens(rest)
  {
    var t := x + [SEPARATOR] + rest;
    IndexIs(t, SEPARATOR, |x|);
    assert t[..|x|] == x && t[|x| + 1..] == rest;
  }

  lemma NoTokens()
    ensures Tokens([]) == []
  {
  }

  lemma CutAtFirst(a: Text)
    requires IndexOf(a, SEPARATOR) < |a|
    ensures var n := IndexOf(a, SEPARATOR); a == a[..n] + [SEPARATOR] + a[n + 1..] && Lacks(a[..n], SEPARATOR)
  {
    hide IndexOf;
    CutAt(a, IndexOf(a, SEPARATOR));
  }

  lemma WholePlain(a: Text)
    requires IndexOf(a, SEPARATOR) == |a|
    ensures Lacks(a, SEPARATOR)
  {
    hide IndexOf;
  }

  lemma {:induction false} TokensAppend(a: Text, b: Text)
    ensures Tokens(a + [SEPARATOR] + b) == Tokens(a + [SEPARATOR]) + Tokens(b)
    decreases |a|
  {
    hide Tokens;
    hide IndexOf;
    var n := IndexOf(a, SEPARATOR);
    if n == |a| {
      WholePlain(a);
      TokensStep(a, b);
      TokensStep(a, []);
      NoTokens();
      assert a + [SEPARATOR] + [] == a + [SEPARATOR];
    } else {
      var x, rest := a[..n], a[n + 1..];
      CutAtFirst(a);
      TokensAppend(rest, b);
      TokensStep(x, rest + [SEPARATOR] + b);
      TokensStep(x, rest + [SEPARATOR]);
      assert a + [SEPARATOR] + b == x + [SEPARATOR] + (rest + [SEPARATOR] + b);
      assert a + [SEPARATOR] == x + [SEPARATOR] + (rest + [SEPARATOR]);
      assert [x] + (Tokens(rest + [SEPARATOR]) + Tokens(b)) == [x] + Tokens(rest + [SEPARATOR]) + Tokens(b);
    }
  }

  lemma OnlyToken(a: Text)
    requires a != [] && Lacks(a, SEPARATOR)
    ensures Tokens(a) == [a]
  {
    IndexIs(a, SEPARATOR, |a|);
  }

  /** A separator at the end adds no token. */
  lemma {:induction false} TokensClosed(a: Text)
    requires a != [] && a[|a| - 1] != SEPARATOR
    ensures Tokens(a + [SEPARATOR]) == Tokens(a)
    decreases |a|
  {
    hide Tokens;
    hide IndexOf;
    var n := IndexOf(a, SEPARATOR);
    if n == |a| {
      WholePlain(a);
      OnlyToken(a);
      TokensStep(a, []);
      NoTokens();
      assert a + [SEPARATOR] + [] == a + [SEPARATOR];
    } else {
      var x, rest := a[..n], a[n + 1..];
      CutAtFirst(a);
      TokensClosed(rest);
      TokensStep(x, rest);
      TokensStep(x, rest + [SEPARATOR]);
      assert a + [SEPARATOR] == x + [SEPARATOR] + (rest + [SEPARATOR]);
    }
  }

  lemma {:induction false} JoinTidy(parts: seq<Name>)
    requires PartsOk(parts)
    ensures Tidy(JoinParts(parts))
    ensures parts != [] ==> JoinParts(parts) != [] && JoinParts(parts)[|JoinParts(parts)| - 1] != SEPARATOR
    decreases |parts|
  {
    if |parts| == 1 {
      OneToken(parts[0]);
    } else if |parts| > 1 {
      var init, last := parts[..|parts| - 1], parts[|parts| - 1];
      JoinTidy(init);
      TidyAppend(JoinParts(init), last);
    }
  }

  lemma TidyAppend(s: Text, part: Name)
    requires Tidy(s) && s != [] && s[|s| - 1] != SEPARATOR && PartOk(part)
    ensures Tidy(s + [SEPARATOR] + part)
  {
    var t := s + [SEPARATOR] + part;
    forall i | 0 <= i < |t|
      ensures !Forbidden(t[i])
      ensures t[i] == SEPARATOR ==> i > 0 && t[i - 1] != SEPARATOR
    {
      if i > |s| { ConcatAt(s + [SEPARATOR], part, i); }
    }
  }

  lemma {:induction false} JoinTokens(parts: seq<Name>)
    requires PartsOk(parts)
    ensures Tokens(JoinParts(parts)) == parts
    decreases |parts|
  {
    hide Tokens;
    hide Tidy;
    if parts == [] {
      NoTokens();
    } else if |parts| == 1 {
      OneToken(parts[0]);
    } else if |parts| > 1 {
      var init, last := parts[..|parts| - 1], parts[|parts| - 1];
      JoinTokens(init);
      JoinTidy(init);
      OneToken(last);
      TokensAppend(JoinParts(init), last);
      TokensClosed(JoinParts(init));
      assert init + [last] == parts;
    }
  }

  lemma {:induction false} JoinComponents(parts: seq<Name>)
    requires PartsOk(parts)
    ensures Components(JoinParts(parts)) == Some(parts)
    decreases |parts|
  {
    hide Components;
    hide Tidy;
    hide PlainName;
    if parts == [] {
      NoComponents();
    } else {
      OneToken(parts[|parts| - 1]);
      if |parts| == 1 {
        ComponentsOne(parts[0]);
        assert parts == [parts[0]];
      } else {
        var init, last := parts[..|parts| - 1], parts[|parts| - 1];
        var s := JoinParts(init);
        JoinComponents(init);
        JoinTidy(init);
        ComponentsAppend(s, last, []);
        assert s + [SEPARATOR] + last + [] == s + [SEPARATOR] + last;
        assert init + [last] == parts;
      }
    }
  }

  lemma NoComponents()
    ensures Components([]) == Some([])
  {
  }

  lemma OneToken(part: Name)
    requires PartOk(part)
    ensures Tokens(part) == [part] && PlainName(part)
  {
    IndexIs(part, SEPARATOR, |part|);
  }

  lemma {:induction false} WalkParts(before: seq<Name>, parts: seq<Name>)
    requires PartsOk(before + parts)
    ensures Walk(before, parts) == Some(before + parts)
    decreases |parts|
  {
    if parts == [] {
      assert before + parts == before;
    } else {
      assert (before + parts)[|before|] == parts[0];
      assert before + parts == before + [parts[0]] + parts[1..];
      WalkParts(before + [parts[0]], parts[1..]);
    }
  }

  lemma JoinRest(drive: Text, parts: seq<Name>)
    requires KnownDrive(drive)
    ensures var path := Join(drive, parts);
            && |drive| < |path| && path[0] == drive[0] && path[|drive|] == COLON
            && path[..|drive|] == drive && path[|drive| + 1..] == JoinParts(parts)
            && forall i :: 0 <= i < |drive| ==>
                 path[i] != COLON && path[i] != SEPARATOR && path[i] != BLANK && path[i] != SLASH
  {
    var path, rest := Join(drive, parts), JoinParts(parts);
    hide JoinParts;
    assert forall i :: 0 <= i < |drive| ==> path[i] == drive[i];
  }

  /** A canonical path resolves to itself from any current directory. */
  lemma ResolveFixed(cwd: Text, drive: Text, parts: seq<Name>, beyond: byte)
    requires KnownDrive(drive) && PartsOk(parts)
    ensures Resolved(cwd, drive, Join(drive, parts), beyond) == Some(parts)
  {
    hide Tokens;
    hide Walk;
    hide Join;
    hide PartsOk;
    var path := Join(drive, parts);
    JoinRest(drive, parts);
    assert DropBlanks(path) == path;
    DriveEndIs(path, |drive|);
    JoinTokens(parts);
    assert [] + parts == parts;
    WalkParts([], parts);
    hide DropBlanks;
    hide DriveEnd;
    hide IndexOf;
    assert SLASH !in drive;
  }

  lemma {:induction false} DriveEndIs(input: Text, n: nat)
    requires n < |input| && input[n] == COLON
    requires forall i :: 0 <= i < n ==> input[i] != COLON && input[i] != SEPARATOR
    ensures DriveEnd(input) == n
    decreases n
  {
    if n > 0 { DriveEndIs(input[1..], n - 1); }
  }

  // ---------------------------------------------------------------------------------------------
  // Agreement
  // ---------------------------------------------------------------------------------------------

  lemma JoinValid(drive: Text, parts: seq<Name>)
    requires KnownDrive(drive) && PartsOk(parts) && |Join(drive, parts)| < PATH_MAX
    ensures PathValid(drive, Join(drive, parts))
  {
    var path := Join(drive, parts);
    JoinTidy(parts);
    assert path[|drive| + 1..] == JoinParts(parts);
  }

  lemma LastCutIs(path: Text, low: nat, length: nat, cut: nat)
    requires low <= cut < length <= |path| && path[cut] == SEPARATOR && 0 < low
    requires forall i :: cut < i < length ==> path[i] != SEPARATOR
    ensures LastCut(path, low, length) == cut
  {
    hide LastCut;
    var r := LastCut(path, low, length);
    assert r >= cut;
  }

  lemma JoinSlashes(drive: Text, parts: seq<Name>)
    requires KnownDrive(drive) && PartsOk(parts)
    ensures NoSlashes(Join(drive, parts))
  {
    var path := Join(drive, parts);
    JoinTidy(parts);
    forall i | 0 <= i < |path|
      ensures path[i] != SLASH && path[i] != BACKSLASH
    {
      if i > |drive| { ConcatAt(drive + [COLON], JoinParts(parts), i); }
    }
  }

  lemma LastPartByte(part: Name)
    requires PartOk(part)
    ensures part[|part| - 1] != SEPARATOR
  {
  }

  /** What `split_path` gives once its scans have ended. */
  lemma SplitIs(path: Text, d: nat, cut: nat)
    requires IndexOf(path, COLON) == d && d + 1 < |path| && NoSlashes(path)
    requires path[|path| - 1] != SEPARATOR && LastCut(path, d + 1, |path|) == cut
    requires |path| - cut - 1 < 49 && cut < PATH_MAX
    ensures Split(path) == Some(if cut <= d then (path[..d + 1], path[d + 1..]) else (path[..cut], path[cut + 1..]))
  {
    assert Trimmed(path, d + 1, |path|) == |path|;
    assert path[..|path|] == path;
    hide IndexOf;
    hide NoSlashes;
    hide Trimmed;
    hide LastCut;
  }

  lemma SplitRoot(drive: Text, last: Name)
    requires KnownDrive(drive) && PartOk(last) && NoSlashes(drive + [COLON] + last)
    ensures Split(drive + [COLON] + last) == Some((drive + [COLON], last))
  {
    var path, d := drive + [COLON] + last, |drive|;
    hide Parse;
    hide NoSlashes;
    hide Split;
    hide LastCut;
    ParseDrive(drive, last);
    LastPartByte(last);
    ConcatAt(drive + [COLON], last, |path| - 1);
    assert path[d + 1..] == last && path[..d + 1] == drive + [COLON];
    NoCut(path, d + 1, last);
    SplitIs(path, d, 0);
  }

  lemma SplitDeep(drive: Text, s: Text, last: Name)
    requires KnownDrive(drive) && PartOk(last) && |drive + [COLON] + s| < PATH_MAX
    requires NoSlashes(drive + [COLON] + (s + [SEPARATOR] + last))
    ensures Split(drive + [COLON] + (s + [SEPARATOR] + last)) == Some((drive + [COLON] + s, last))
  {
    var rest := s + [SEPARATOR] + last;
    var path, d := drive + [COLON] + rest, |drive|;
    var cut := d + 1 + |s|;
    hide Parse;
    hide NoSlashes;
    hide Split;
    hide LastCut;
    ParseDrive(drive, rest);
    LastPartByte(last);
    assert path == drive + [COLON] + s + [SEPARATOR] + last;
    ConcatAt(drive + [COLON] + s + [SEPARATOR], last, |path| - 1);
    forall i | cut < i < |path|
      ensures path[i] != SEPARATOR
    {
      ConcatAt(drive + [COLON] + s + [SEPARATOR], last, i);
    }
    LastCutIs(path, d + 1, |path|, cut);
    SplitIs(path, d, cut);
    assert path[..cut] == drive + [COLON] + s && path[cut + 1..] == last;
  }

  /** A name directly below the root: `split_path` takes it exactly when it fits together with the drive
      prefix, although `find_path` walks all names of up to 48 bytes. */
  lemma RootNameLimit(drive: Text, name: Name)
    requires KnownDrive(drive) && PlainName(name)
    ensures Parse(drive + [COLON] + name) == Some([name])
    ensures Split(drive + [COLON] + name).Some? <==> |drive| + |name| < 49
  {
    var path, d := drive + [COLON] + name, |drive|;
    hide Parse;
    hide LastCut;
    hide Components;
    ParseDrive(drive, name);
    ComponentsOne(name);
    ConcatAt(drive + [COLON], name, |path| - 1);
    RootSlashes(drive, name);
    assert path[d + 1..] == name;
    NoCut(path, d + 1, name);
    hide NoSlashes;
    assert Trimmed(path, d + 1, |path|) == |path|;
    hide Trimmed;
    hide IndexOf;
  }

  lemma RootSlashes(drive: Text, name: Name)
    requires KnownDrive(drive) && Clean(name)
    ensures NoSlashes(drive + [COLON] + name)
  {
    var path := drive + [COLON] + name;
    forall i | 0 <= i < |path|
      ensures path[i] != SLASH && path[i] != BACKSLASH
    {
      if i > |drive| { ConcatAt(drive + [COLON], name, i); }
    }
  }

  lemma SplitNone(drive: Text)
    requires KnownDrive(drive)
    ensures Split(drive + [COLON]) == None
  {
    ParseDrive(drive, []);
    assert drive + [COLON] + [] == drive + [COLON];
  }

  /** `split_path` takes a canonical path apart into the canonical parent and the last component. */
  lemma JoinSplits(drive: Text, parts: seq<Name>)
    requires KnownDrive(drive) && PartsOk(parts) && |Join(drive, parts)| < PATH_MAX
    ensures Split(Join(drive, parts))
            == if parts == [] then None else Some((Join(drive, parts[..|parts| - 1]), parts[|parts| - 1]))
  {
    JoinSlashes(drive, parts);
    hide NoSlashes;
    hide Split;
    hide KnownDrive;
    if parts == [] {
      SplitNone(drive);
      assert Join(drive, parts) == drive + [COLON];
    } else {
      var init, last := parts[..|parts| - 1], parts[|parts| - 1];
      assert PartOk(last);
      hide PartOk;
      if |parts| == 1 {
        SplitRoot(drive, last);
        assert Join(drive, init) == drive + [COLON];
      } else {
        SplitDeep(drive, JoinParts(init), last);
      }
    }
  }

  lemma NoCut(path: Text, low: nat, last: Name)
    requires low + |last| == |path| && path[low..] == last && Lacks(last, SEPARATOR)
    ensures LastCut(path, low, |path|) == 0
  {
    forall i | low <= i < |path|
      ensures path[i] != SEPARATOR
    {
      assert path[i] == last[i - low];
    }
  }

  /** Every path that `path_resolve` returns is the canonical text of the folded components; resolving
      it again changes nothing; the kernel's check admits it for the same drive; `find_path` walks
      exactly those components from the root; and `split_path` gives its canonical parent and its
      last component. */
  lemma ResolveAgrees(cwd: Text, drive: Text, input: Text, beyond: byte, v: Volume) returns (parts: seq<Name>)
    requires KnownDrive(drive) && ResolvePath(cwd, drive, input, beyond).Some?
    ensures var path := ResolvePath(cwd, drive, input, beyond).value;
            && PartsOk(parts) && Resolved(cwd, drive, input, beyond) == Some(parts) && path == Join(drive, parts)
            && (forall other, b :: ResolvePath(other, drive, path, b) == Some(path))
            && PathValid(drive, path)
            && Parse(path) == Some(parts) && FindPath(v, path) == Resolve(v, ROOT_INODE, parts)
            && Split(path) == if parts == [] then None
                              else Some((Join(drive, parts[..|parts| - 1]), parts[|parts| - 1]))
  {
    hide Resolved;
    hide Parse;
    hide Split;
    hide PathValid;
    hide Join;
    hide Resolve;
    hide PartsOk;
    parts := Resolved(cwd, drive, input, beyond).value;
    ResolvedOk(cwd, drive, input, beyond);
    forall other, b
      ensures ResolvePath(other, drive, Join(drive, parts), b) == Some(Join(drive, parts))
    {
      ResolveFixed(other, drive, parts, b);
    }
    JoinValid(drive, parts);
    JoinParses(drive, parts);
    JoinSplits(drive, parts);
  }

  lemma JoinParses(drive: Text, parts: seq<Name>)
    requires KnownDrive(drive) && PartsOk(parts)
    ensures Parse(Join(drive, parts)) == Some(parts)
  {
    ParseDrive(drive, JoinParts(parts));
    JoinComponents(parts);
  }

  /** A path typed without a drive. */
  predicate Relative(input: Text) {
    input != [] && input[0] != BLANK && Clean(input)
  }

  lemma RelativeResolves(drive: Text, parts: seq<Name>, input: Text, beyond: byte)
    requires KnownDrive(drive) && PartsOk(parts) && Relative(input)
    ensures Resolved(Join(drive, parts), drive, input, beyond) == Walk(parts, Tokens(input))
  {
    hide Tokens;
    hide Walk;
    hide Join;
    hide PartsOk;
    hide IndexOf;
    var cwd := Join(drive, parts);
    JoinRest(drive, parts);
    IndexIs(cwd, COLON, |drive|);
    JoinTokens(parts);
    assert [] + parts == parts;
    WalkParts([], parts);
    RelativeDrive(input);
    hide DropBlanks;
    hide DriveEnd;
    hide Clean;
  }

  lemma RelativeDrive(input: Text)
    requires Relative(input)
    ensures DropBlanks(input) == input && input[0] != BACKSLASH && (|input| > 1 ==> input[1] != COLON)
    ensures var d := DriveEnd(input); SLASH !in input[..d] && (d < |input| ==> input[d] != COLON)
  {
    hide DriveEnd;
    var d := DriveEnd(input);
    assert forall i :: 0 <= i < d ==> input[..d][i] == input[i];
  }

  /** One component, typed: a dot stays, two dots go up, and a name of at most 23 characters goes down, to a depth
      of at most eight. */
  lemma ResolveOne(drive: Text, parts: seq<Name>, token: Text, beyond: byte)
    requires KnownDrive(drive) && PartsOk(parts) && Relative(token) && Lacks(token, SEPARATOR)
    ensures Resolved(Join(drive, parts), drive, token, beyond)
            == if token == [0x2e] then Some(parts)
               else if token == [0x2e, 0x2e] then Some(if parts == [] then [] else parts[..|parts| - 1])
               else if |parts| == 8 || |token| > 23 then None
               else Some(parts + [token])
  {
    RelativeResolves(drive, parts, token, beyond);
    OnlyToken(token);
    hide Resolved;
    hide Tokens;
    hide Join;
    assert [token][1..] == [];
    assert Walk(parts, [token]) == match Enter(parts, token) case None => None case Some(next) => Walk(next, []);
  }

  /** A path typed with its drive starts at the root, whatever the current directory is; one with another known
      drive is refused. */
  lemma ResolveDrive(cwd: Text, drive: Text, typed: Text, rest: Text, beyond: byte)
    requires KnownDrive(drive) && KnownDrive(typed)
    ensures Relative(rest) ==>
              Resolved(cwd, drive, drive + [COLON] + rest, beyond) == Resolved(Join(drive, []), drive, rest, beyond)
    ensures typed != drive ==> Resolved(cwd, drive, typed + [COLON] + rest, beyond) == None
  {
    TypedDrive(typed, rest);
    TypedDrive(drive, rest);
    assert (drive + [COLON] + rest)[..|drive|] == drive && (drive + [COLON] + rest)[|drive| + 1..] == rest;
    assert (typed + [COLON] + rest)[..|typed|] == typed;
    NoSlash(typed);
    NoSlash(drive);
    hide Walk;
    hide Tokens;
    hide Join;
    hide KnownDrive;
    if Relative(rest) { RelativeResolves(drive, [], rest, beyond); }
    hide Relative;
    hide DropBlanks;
    hide DriveEnd;
  }

  lemma NoSlash(drive: Text)
    requires KnownDrive(drive)
    ensures SLASH !in drive
  {
  }

  lemma TypedDrive(drive: Text, rest: Text)
    requires KnownDrive(drive)
    ensures var t := drive + [COLON] + rest;
            DropBlanks(t) == t && DriveEnd(t) == |drive| && t[|drive|] == COLON
  {
    DriveEndIs(drive + [COLON] + rest, |drive|);
  }

  /** Resolving `a` and then `b` from there is resolving `a>b`. */
  lemma ResolveTwice(drive: Text, parts: seq<Name>, a: Text, b: Text, beyond: byte)
    requires KnownDrive(drive) && PartsOk(parts) && Relative(a) && Relative(b) && a[|a| - 1] != SEPARATOR
    ensures Resolved(Join(drive, parts), drive, a + [SEPARATOR] + b, beyond)
            == match Resolved(Join(drive, parts), drive, a, beyond)
               case None => None
               case Some(next) => Resolved(Join(drive, next), drive, b, beyond)
  {
    RelativeResolves(drive, parts, a, beyond);
    RelativeResolves(drive, parts, a + [SEPARATOR] + b, beyond);
    TokensAppend(a, b);
    TokensClosed(a);
    WalkAppend(parts, Tokens(a), Tokens(b));
    TokensPlain(a);
    hide Walk;
    hide Resolved;
    hide Tokens;
    if Walk(parts, Tokens(a)).Some? {
      WalkOk(parts, Tokens(a));
      RelativeResolves(drive, Walk(parts, Tokens(a)).value, b, beyond);
    }
  }
}
