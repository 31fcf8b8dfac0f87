/** The path grammar of the kernel: drive, colon, components joined by '>'. */
module Qfs2Path {
  import opened Bytes
  import opened Options
  import opened Qfs2Format
  import opened Qfs2Volume

  /** A path is the bytes before its terminating zero. */
  type Text = seq<byte>

  const PRIME: Text := [0x70, 0x72, 0x69, 0x6d, 0x65]
  const LIVE: Text := [0x6c, 0x69, 0x76, 0x65]
  const PATH_MAX: nat := 96

  predicate IsCString(path: Text) {
    forall i :: 0 <= i < |path| ==> path[i] != 0
  }

  /** The byte at `i`, reading the terminating zero past the end. */
  function At(path: Text, i: nat): byte {
    if i < |path| then path[i] else 0
  }

  /** The first position of `c`, or the length. */
  function IndexOf(s: Text, c: byte): (r: nat)
    ensures r <= |s|
    ensures forall i :: 0 <= i < r ==> s[i] != c
    ensures r < |s| ==> s[r] == c
  {
    if s == [] || s[0] == c then 0 else 1 + IndexOf(s[1..], c)
  }

  lemma IndexIs(s: Text, c: byte, r: nat)
    requires r <= |s| && (forall i :: 0 <= i < r ==> s[i] != c) && (r < |s| ==> s[r] == c)
    ensures IndexOf(s, c) == r
  {
  }

  predicate Lacks(s: Text, c: byte) {
    forall i :: 0 <= i < |s| ==> s[i] != c
  }

  predicate Forbidden(c: byte) { c in {SLASH, BACKSLASH, COLON} }

  predicate Clean(s: Text) {
    forall i :: 0 <= i < |s| ==> !Forbidden(s[i])
  }

  /** The component loop of `find_path`. */
  function Components(s: Text): Option<seq<Name>>
    decreases |s|
  {
    if s == [] then Some([])
    else
      var n := IndexOf(s, SEPARATOR);
      if n > NAME_MAX || !Clean(s[..n]) || (n + 1 < |s| && s[n + 1] == SEPARATOR) then None
      else
        match Components(if n < |s| then s[n + 1..] else [])
        case None => None
        case Some(rest) => Some(if n == 0 then rest else [s[..n]] + rest)
  }

  predicate KnownDrive(drive: Text) { drive == PRIME || drive == LIVE }

  /** The components that `find_path` walks, or `None` where it rejects the path. */
  function Parse(path: Text): Option<seq<Name>> {
    var d := IndexOf(path, COLON);
    if d == |path| || !KnownDrive(path[..d]) then None else Components(path[d + 1..])
  }

  /** `find_path` */
  function FindPath(v: Volume, path: Text): Option<nat> {
    match Parse(path)
    case None => None
    case Some(c) => Resolve(v, ROOT_INODE, c)
  }

  /** `filesystem_path_valid` of kernel/core/task.c, for the mount of the given drive. */
  predicate PathValid(drive: Text, path: Text) {
    && drive + [COLON] <= path
    && |path| < PATH_MAX
    && var rest := path[|drive| + 1..];
       && Clean(rest)
       && forall i :: 0 <= i < |rest| && rest[i] == SEPARATOR ==> i > 0 && rest[i - 1] != SEPARATOR
  }

  /** The end of `path` without trailing separators, never before `low`. */
  function Trimmed(path: Text, low: nat, length: nat): (r: nat)
    requires length <= |path|
    ensures r <= length
    ensures low < r ==> path[r - 1] != SEPARATOR
    ensures forall i :: r <= i < length ==> path[i] == SEPARATOR
    ensures low <= length ==> low <= r
    decreases length
  {
    if length > low && path[length - 1] == SEPARATOR then Trimmed(path, low, length - 1) else length
  }

  /** The last separator in `path[low..length]`, or zero. */
  function LastCut(path: Text, low: nat, length: nat): (r: nat)
    requires length <= |path|
    ensures r == 0 || (low <= r < length && path[r] == SEPARATOR)
    ensures forall i :: low <= i < length && r < i ==> path[i] != SEPARATOR
    ensures r == 0 && 0 < low ==> forall i :: low <= i < length ==> path[i] != SEPARATOR
    decreases length
  {
    if length <= low then 0
    else if path[length - 1] == SEPARATOR then length - 1
    else LastCut(path, low, length - 1)
  }

  predicate NoSlashes(path: Text) {
    forall i :: 0 <= i < |path| ==> path[i] != SLASH && path[i] != BACKSLASH
  }

  /** `split_path`: parent and last component.  The length limit on the last component counts from
      the last separator, so for a name in the root it includes the drive prefix. */
  function Split(path: Text): Option<(Text, Name)> {
    var d := IndexOf(path, COLON);
    if d == |path| || !NoSlashes(path) then None
    else
      var length := Trimmed(path, d + 1, |path|);
      if length <= d + 1 then None
      else
        var cut := LastCut(path, d + 1, length);
        if length - cut - 1 >= 49 || cut >= PATH_MAX then None
        else if cut <= d then Some((path[..d + 1], path[d + 1..length]))
        else Some((path[..cut], path[cut + 1..length]))
  }

  // ---------------------------------------------------------------------------------------------

  /** Separators stand between non-empty components, with one more allowed at the end. */
  predicate Tidy(s: Text) {
    && Clean(s)
    && forall i :: 0 <= i < |s| && s[i] == SEPARATOR ==> i > 0 && s[i - 1] != SEPARATOR
  }

  predicate PlainName(name: Name) {
    0 < |name| <= NAME_MAX && Clean(name) && forall i :: 0 <= i < |name| ==> name[i] != SEPARATOR
  }

  lemma ComponentsOne(name: Name)
    requires PlainName(name)
    ensures Components(name) == Some([name])
    ensures Components(name + [SEPARATOR]) == Some([name])
  {
    IndexIs(name, SEPARATOR, |name|);
    assert name[..|name|] == name;
    var s := name + [SEPARATOR];
    IndexIs(s, SEPARATOR, |name|);
    assert s[..|name|] == name;
    assert s[|name| + 1..] == [];
    assert Components([]) == Some([]);
    assert [name] + [] == [name];
  }

  /** One component, one separator, more. */
  lemma ComponentsStep(name: Name, s: Text)
    requires PlainName(name) && s != [] && s[0] != SEPARATOR
    ensures Components(name + [SEPARATOR] + s)
            == match Components(s) case None => None case Some(rest) => Some([name] + rest)
  {
    var t := name + [SEPARATOR] + s;
    IndexIs(t, SEPARATOR, |name|);
    assert t[..|name|] == name;
    assert t[|name| + 1..] == s;
  }

  lemma TooLong(s: Text)
    requires IndexOf(s, SEPARATOR) > NAME_MAX
    ensures Components(s) == None
  {
  }

  /** The rest of a tidy path after its first component. */
  lemma TidyRest(s: Text, n: nat)
    requires Tidy(s) && n == IndexOf(s, SEPARATOR) < |s| && s[|s| - 1] != SEPARATOR
    ensures 0 < n && n + 1 < |s|
    ensures var rest := s[n + 1..];
            && Tidy(rest) && rest != [] && rest[0] != SEPARATOR && rest[|rest| - 1] != SEPARATOR
            && s == s[..n] + [SEPARATOR] + rest
  {
    var rest := s[n + 1..];
    assert s[n] == SEPARATOR;
    TidyNext(s, n);
    forall i | 0 <= i < |rest| && rest[i] == SEPARATOR
      ensures i > 0 && rest[i - 1] != SEPARATOR
    {
      assert s[n + 1 + i] == SEPARATOR;
    }
  }

  lemma AppendToOne(s: Text, name: Name, tail: Text)
    requires PlainName(s) && PlainName(name) && (tail == [] || tail == [SEPARATOR])
    ensures Components(s + [SEPARATOR] + name + tail) == Some([s, name]) && Components(s) == Some([s])
  {
    hide Components;
    assert s + [SEPARATOR] + name + tail == s + [SEPARATOR] + (name + tail);
    assert name + [] == name;
    ComponentsOne(name);
    ComponentsStep(s, name + tail);
    ComponentsOne(s);
    assert [s] + [name] == [s, name];
  }

  /** Appending a component to a tidy path appends it to its components. */
  lemma {:induction false} ComponentsAppend(s: Text, name: Name, tail: Text)
    requires Tidy(s) && s != [] && s[|s| - 1] != SEPARATOR && PlainName(name) && (tail == [] || tail == [SEPARATOR])
    ensures Components(s + [SEPARATOR] + name + tail)
            == match Components(s) case None => None case Some(c) => Some(c + [name])
    decreases |s|
  {
    hide Components;
    hide IndexOf;
    var n := IndexOf(s, SEPARATOR);
    var t := s + [SEPARATOR] + name + tail;
    if n > NAME_MAX {
      IndexIs(t, SEPARATOR, n);
      TooLong(s);
      TooLong(t);
    } else if n == |s| {
      assert s[..n] == s;
      AppendToOne(s, name, tail);
      assert [s] + [name] == [s, name];
    } else {
      TidyRest(s, n);
      ComponentsAppend(s[n + 1..], name, tail);
      AppendDeeper(s[..n], s[n + 1..], name, tail);
    }
  }

  lemma AppendDeeper(first: Name, rest: Text, name: Name, tail: Text)
    requires PlainName(first) && rest != [] && rest[0] != SEPARATOR
    requires Components(rest + [SEPARATOR] + name + tail)
             == match Components(rest) case None => None case Some(c) => Some(c + [name])
    ensures Components(first + [SEPARATOR] + rest + [SEPARATOR] + name + tail)
            == match Components(first + [SEPARATOR] + rest) case None => None case Some(c) => Some(c + [name])
  {
    hide Components;
    assert first + [SEPARATOR] + rest + [SEPARATOR] + name + tail
        == first + [SEPARATOR] + (rest + [SEPARATOR] + name + tail);
    ComponentsStep(first, rest);
    ComponentsStep(first, rest + [SEPARATOR] + name + tail);
    match Components(rest)
    case None =>
    case Some(c) => assert [first] + (c + [name]) == ([first] + c) + [name];
  }

  // ---------------------------------------------------------------------------------------------
  // The texts that `find_path` takes apart
  // ---------------------------------------------------------------------------------------------

  /** The names with a `>` between neighbours. */
  function Spelled(names: seq<Name>): Text {
    if names == [] then [] else if |names| == 1 then names[0] else names[0] + [0x3e] + Spelled(names[1..])
  }

  /** 1 to 48 characters, none of them a slash, a backslash, a colon or `>`. */
  predicate ShortName(name: Name) {
    1 <= |name| <= 48 && forall i :: 0 <= i < |name| ==> name[i] !in {0x2f, 0x5c, 0x3a, 0x3e}
  }

  /** At most one `>` more stands before and after the names, and not both if there are none. */
  predicate Enclosed(s: Text, names: seq<Name>, before: Text, after: Text) {
    && before in {[], [0x3e]} && after in {[], [0x3e]} && (names == [] ==> before == [] || after == [])
    && s == before + Spelled(names) + after
  }

  ghost predicate Spells(s: Text, names: seq<Name>) {
    && (forall i :: 0 <= i < |names| ==> ShortName(names[i]))
    && exists before, after :: Enclosed(s, names, before, after)
  }

  lemma ShortIsPlain(name: Name)
    ensures ShortName(name) <==> PlainName(name)
  {
  }

  lemma SpelledStarts(names: seq<Name>)
    requires names != [] && forall i :: 0 <= i < |names| ==> ShortName(names[i])
    ensures Spelled(names) != [] && Spelled(names)[0] != SEPARATOR
  {
    assert ShortName(names[0]);
    assert names[0][0] !in {0x2f, 0x5c, 0x3a, 0x3e};
  }

  lemma {:induction false} SpelledTaken(names: seq<Name>, after: Text)
    requires names != [] && (forall i :: 0 <= i < |names| ==> ShortName(names[i])) && after in {[], [0x3e]}
    ensures Components(Spelled(names) + after) == Some(names)
  {
    hide Components;
    ShortIsPlain(names[0]);
    hide PlainName;
    if |names| == 1 {
      ComponentsOne(names[0]);
      assert names[0] + [] == names[0] && names == [names[0]];
    } else {
      SpelledStarts(names[1..]);
      SpelledTaken(names[1..], after);
      ComponentsStep(names[0], Spelled(names[1..]) + after);
      assert Spelled(names) + after == names[0] + [SEPARATOR] + (Spelled(names[1..]) + after);
      assert names == [names[0]] + names[1..];
    }
  }

  lemma LeadTaken(s: Text)
    requires s == [] || s[0] != SEPARATOR
    ensures Components([SEPARATOR] + s) == Components(s)
  {
    var t := [SEPARATOR] + s;
    IndexIs(t, SEPARATOR, 0);
    assert t[1..] == s && Clean(t[..0]);
    assert 0 + 1 < |t| ==> t[0 + 1] == s[0];
  }

  lemma {:induction false} TakenSpells(s: Text) returns (after: Text)
    requires (s == [] || s[0] != SEPARATOR) && Components(s).Some?
    ensures Enclosed(s, Components(s).value, [], after)
    ensures forall i :: 0 <= i < |Components(s).value| ==> ShortName(Components(s).value[i])
    ensures s != [] ==> Components(s).value != []
    decreases |s|
  {
    hide Components;
    hide ShortName;
    after := [];
    if s == [] {
      NothingTaken();
    } else {
      var name, rest := FirstTaken(s);
      if rest == [] {
        NothingTaken();
        after := if s == name then [] else [SEPARATOR];
        assert [name] + [] == [name];
      } else {
        after := TakenSpells(rest);
        SpelledMore(name, Components(rest).value);
      }
    }
  }

  lemma NothingTaken()
    ensures Components([]) == Some([]) && Spelled([]) == []
  {
  }

  lemma SpelledMore(name: Name, names: seq<Name>)
    requires names != []
    ensures Spelled([name] + names) == name + [SEPARATOR] + Spelled(names)
  {
    assert ([name] + names)[1..] == names;
  }

  lemma FirstTaken(s: Text) returns (name: Name, rest: Text)
    requires s != [] && s[0] != SEPARATOR && Components(s).Some?
    ensures ShortName(name) && ((s == name && rest == []) || s == name + [SEPARATOR] + rest)
    ensures (rest == [] || rest[0] != SEPARATOR) && |rest| < |s|
    ensures Components(rest).Some? && Components(s).value == [name] + Components(rest).value
  {
    var n := IndexOf(s, SEPARATOR);
    name, rest := s[..n], if n < |s| then s[n + 1..] else [];
    ShortIsPlain(name);
  }

  /** Which texts `find_path` accepts behind the drive, and the names that it finds in each. */
  lemma ComponentsExactly(s: Text, names: seq<Name>)
    ensures Components(s) == Some(names) <==> Spells(s, names)
  {
    hide Components;
    if Components(s) == Some(names) {
      if s != [] && s[0] == SEPARATOR {
        NoDoubleLead(s);
        LeadTaken(s[1..]);
        assert s == [SEPARATOR] + s[1..];
        var after := TakenSpells(s[1..]);
        assert names == [] ==> s[1..] == [];
        assert Enclosed(s, names, [SEPARATOR], after);
      } else {
        var after := TakenSpells(s);
      }
    }
    if Spells(s, names) {
      var before, after :| Enclosed(s, names, before, after);
      EnclosedTaken(s, names, before, after);
    }
  }

  lemma NoDoubleLead(s: Text)
    requires s != [] && s[0] == SEPARATOR && Components(s).Some?
    ensures s[1..] == [] || s[1..][0] != SEPARATOR
  {
  }

  lemma EnclosedTaken(s: Text, names: seq<Name>, before: Text, after: Text)
    requires Enclosed(s, names, before, after) && forall i :: 0 <= i < |names| ==> ShortName(names[i])
    ensures Components(s) == Some(names)
  {
    if names == [] {
      LeadTaken([]);
      assert [SEPARATOR] + [] == [SEPARATOR];
      assert s == [] || s == [SEPARATOR];
    } else {
      hide Components;
      SpelledStarts(names);
      SpelledTaken(names, after);
      LeadTaken(Spelled(names) + after);
      assert [] + Spelled(names) + after == Spelled(names) + after;
      assert [SEPARATOR] + Spelled(names) + after == [SEPARATOR] + (Spelled(names) + after);
    }
  }

  lemma ParseDrive(drive: Text, rest: Text)
    requires KnownDrive(drive)
    ensures Parse(drive + [COLON] + rest) == Components(rest)
    ensures IndexOf(drive + [COLON] + rest, COLON) == |drive|
  {
    var path := drive + [COLON] + rest;
    IndexIs(path, COLON, |drive|);
    assert path[..|drive|] == drive;
    assert path[|drive| + 1..] == rest;
  }

  /** The text between the colon and the last component of an accepted path. */
  ghost predicate SplitShape(drive: Text, path: Text, parent: Text, s: Text, name: Name, tail: Text) {
    && parent == drive + [COLON] + s
    && path == drive + [COLON] + (if s == [] then name + tail else s + [SEPARATOR] + name + tail)
    && (tail == [] || tail == [SEPARATOR])
    && PlainName(name) && LegalName(name)
    && Tidy(s) && (s != [] ==> s[|s| - 1] != SEPARATOR)
  }

  lemma SplitTail(drive: Text, path: Text, length: nat)
    requires PathValid(drive, path) && |drive| + 1 <= length <= |path|
    requires forall i :: length <= i < |path| ==> path[i] == SEPARATOR
    ensures path[length..] == [] || path[length..] == [SEPARATOR]
  {
    var rest := path[|drive| + 1..];
    TailShort(rest, length - |drive| - 1);
    assert path[length..] == rest[length - |drive| - 1..];
  }

  lemma NameInside(drive: Text, path: Text, lo: nat, hi: nat)
    requires IsCString(path) && PathValid(drive, path) && |drive| + 1 <= lo < hi <= |path| && hi - lo <= NAME_MAX
    requires forall i :: lo <= i < hi ==> path[i] != SEPARATOR
    ensures PlainName(path[lo..hi]) && LegalName(path[lo..hi])
  {
    var rest := path[|drive| + 1..];
    forall i | lo <= i < hi
      ensures path[i] != 0 && !Forbidden(path[i])
    {
      assert path[i] == rest[i - |drive| - 1];
    }
  }

  lemma PrefixTidy(drive: Text, path: Text, hi: nat)
    requires PathValid(drive, path) && |drive| + 1 <= hi <= |path|
    ensures Tidy(path[|drive| + 1..hi])
  {
    var rest, s := path[|drive| + 1..], path[|drive| + 1..hi];
    assert forall i :: 0 <= i < |s| ==> s[i] == rest[i];
  }

  lemma Pieces(path: Text, a: nat, b: nat, c: nat)
    requires a <= b < c <= |path|
    ensures path == path[..a] + (path[a..b] + [path[b]] + path[b + 1..c] + path[c..])
    ensures path == path[..a] + (path[a..c] + path[c..])
  {
  }

  lemma RootShape(drive: Text, path: Text, length: nat)
    requires IsCString(path) && PathValid(drive, path) && |drive| + 1 < length <= |path|
             && length - |drive| - 1 <= NAME_MAX
    requires forall i :: |drive| + 1 <= i < length ==> path[i] != SEPARATOR
    requires forall i :: length <= i < |path| ==> path[i] == SEPARATOR
    ensures SplitShape(drive, path, path[..|drive| + 1], [], path[|drive| + 1..length], path[length..])
  {
    NameInside(drive, path, |drive| + 1, length);
    SplitTail(drive, path, length);
    Pieces(path, |drive| + 1, length - 1, length);
    assert path[..|drive| + 1] == drive + [COLON];
    hide LegalName;
    hide PlainName;
  }

  lemma DeepShape(drive: Text, path: Text, cut: nat, length: nat)
    requires IsCString(path) && PathValid(drive, path) && |drive| + 1 <= cut && cut + 1 < length <= |path|
    requires length - cut - 1 <= NAME_MAX && path[cut] == SEPARATOR
    requires forall i :: cut < i < length ==> path[i] != SEPARATOR
    requires forall i :: length <= i < |path| ==> path[i] == SEPARATOR
    ensures SplitShape(drive, path, path[..cut], path[|drive| + 1..cut], path[cut + 1..length], path[length..])
  {
    hide PathValid;
    hide IsCString;
    hide LegalName;
    hide PlainName;
    hide Tidy;
    var d := |drive|;
    NameInside(drive, path, cut + 1, length);
    SplitTail(drive, path, length);
    PrefixTidy(drive, path, cut);
    CutInside(drive, path, cut);
    DrivePrefix(drive, path);
    var s := path[d + 1..cut];
    assert s[|s| - 1] == path[cut - 1];
    Pieces(path, d + 1, cut, length);
    PrefixJoin(path, d + 1, cut);
  }

  lemma PrefixJoin(path: Text, a: nat, b: nat)
    requires a <= b <= |path|
    ensures path[..b] == path[..a] + path[a..b]
  {
  }

  lemma DrivePrefix(drive: Text, path: Text)
    requires PathValid(drive, path)
    ensures |drive| + 1 <= |path| && path[..|drive| + 1] == drive + [COLON]
  {
  }

  /** A separator of an accepted path follows a component byte. */
  lemma CutInside(drive: Text, path: Text, cut: nat)
    requires PathValid(drive, path) && |drive| + 1 <= cut < |path| && path[cut] == SEPARATOR
    ensures |drive| + 1 < cut && path[cut - 1] != SEPARATOR
  {
    var rest := path[|drive| + 1..];
    assert rest[cut - |drive| - 1] == SEPARATOR;
    assert rest[cut - |drive| - 2] == path[cut - 1];
  }

  /** The positions `split_path` computes, `low` being the first after the colon. */
  lemma SplitParts(path: Text, low: nat) returns (length: nat, cut: nat)
    requires low == IndexOf(path, COLON) + 1 && Split(path).Some?
    ensures low < length <= |path| && (forall i :: length <= i < |path| ==> path[i] == SEPARATOR)
    ensures cut < low ==>
              && Split(path).value == (path[..low], path[low..length])
              && length - low <= NAME_MAX
              && forall i :: low <= i < length ==> path[i] != SEPARATOR
    ensures low <= cut ==>
              && cut + 1 < length && path[cut] == SEPARATOR && length - cut - 1 <= NAME_MAX
              && Split(path).value == (path[..cut], path[cut + 1..length])
              && forall i :: cut < i < length ==> path[i] != SEPARATOR
  {
    length := Trimmed(path, low, |path|);
    cut := LastCut(path, low, length);
  }

  lemma DriveCut(drive: Text, path: Text)
    requires KnownDrive(drive) && PathValid(drive, path)
    ensures IndexOf(path, COLON) == |drive|
  {
    assert path == drive + [COLON] + path[|drive| + 1..];
    ParseDrive(drive, path[|drive| + 1..]);
  }

  lemma SplitHasShape(drive: Text, path: Text) returns (s: Text, tail: Text)
    requires KnownDrive(drive) && IsCString(path) && PathValid(drive, path) && Split(path).Some?
    ensures SplitShape(drive, path, Split(path).value.0, s, Split(path).value.1, tail)
  {
    var d := |drive|;
    DriveCut(drive, path);
    hide *;
    var length, cut := SplitParts(path, d + 1);
    tail := path[length..];
    if cut <= d {
      s := [];
      RootShape(drive, path, length);
    } else {
      s := path[d + 1..cut];
      DeepShape(drive, path, cut, length);
    }
  }

  /** `path` is a drive, "prime" or "live", a colon and a text that spells the names. */
  ghost predicate PathSpells(path: Text, names: seq<Name>, drive: Text, s: Text) {
    && (drive == [0x70, 0x72, 0x69, 0x6d, 0x65] || drive == [0x6c, 0x69, 0x76, 0x65])
    && path == drive + [0x3a] + s && Spells(s, names)
  }

  /** Which paths `find_path` accepts, and the names that it walks for each. */
  lemma ParseExactly(path: Text, names: seq<Name>)
    ensures Parse(path) == Some(names) <==> exists drive, s :: PathSpells(path, names, drive, s)
  {
    hide Spells;
    hide Components;
    if Parse(path) == Some(names) {
      var d := IndexOf(path, COLON);
      ComponentsExactly(path[d + 1..], names);
      assert path == path[..d] + [0x3a] + path[d + 1..];
      assert PathSpells(path, names, path[..d], path[d + 1..]);
    }
    if drive, s :| PathSpells(path, names, drive, s) {
      ParseDrive(drive, s);
      ComponentsExactly(s, names);
    }
  }

  /** The text of a name list ends with its last name, behind a `>` if there are more. */
  lemma {:induction false} SpelledEnds(names: seq<Name>)
    requires names != []
    ensures var t, last := Spelled(names), names[|names| - 1];
            && |t| >= |last| && t[|t| - |last|..] == last
            && (|names| == 1 ==> |t| == |last|)
            && (|names| > 1 ==> |t| > |last| && t[|t| - |last| - 1] == 0x3e)
  {
    if |names| > 1 {
      var rest := Spelled(names[1..]);
      SpelledEnds(names[1..]);
      var t, last := Spelled(names), names[|names| - 1];
      assert t == names[0] + [0x3e] + rest;
      assert t[|t| - |rest|..] == rest;
      assert t[|t| - |last|..] == rest[|rest| - |last|..];
      if |names| > 2 { assert t[|t| - |last| - 1] == rest[|rest| - |last| - 1]; }
    }
  }

  /** The rest of an accepted path that spells names: the names, and at most one `>` more at the end. */
  lemma ValidSpelled(drive: Text, path: Text, names: seq<Name>) returns (after: Text)
    requires KnownDrive(drive) && PathValid(drive, path) && Parse(path) == Some(names)
    ensures after in {[], [0x3e]} && (names == [] ==> after == [])
    ensures path == drive + [COLON] + (Spelled(names) + after)
    ensures forall i :: 0 <= i < |names| ==> ShortName(names[i])
  {
    hide Components;
    var rest := path[|drive| + 1..];
    assert path == drive + [COLON] + rest;
    ParseDrive(drive, rest);
    ComponentsExactly(rest, names);
    var before, end :| Enclosed(rest, names, before, end);
    after := end;
    EnclosedStarts(rest, names, before, end);
    assert [] + Spelled(names) + after == Spelled(names) + after;
  }

  lemma EnclosedStarts(s: Text, names: seq<Name>, before: Text, after: Text)
    requires Enclosed(s, names, before, after)
    ensures before != [] || (names == [] && after != []) ==> s != [] && s[0] == SEPARATOR
  {
    if names == [] { NoneSpelled(); }
    hide Spelled;
  }

  /** Which accepted paths `split_path` takes: those with a name, and a name directly below the root must leave
      room for the drive within 48 characters. */
  lemma SplitExactly(drive: Text, path: Text, names: seq<Name>)
    requires KnownDrive(drive) && PathValid(drive, path) && Parse(path) == Some(names)
    ensures Split(path).Some? <==> names != [] && (|names| == 1 ==> |drive| + |names[0]| <= 48)
  {
    hide Parse;
    hide Spelled;
    hide NoSlashes;
    hide PathValid;
    hide IndexOf;
    hide KnownDrive;
    hide ShortName;
    hide Components;
    hide Split;
    var after := ValidSpelled(drive, path, names);
    var t := Spelled(names);
    ParseDrive(drive, t + after);
    ValidSlashes(drive, path);
    ValidLength(drive, path);
    if names == [] {
      NoneSpelled();
      SplitBy(path, |drive|, |drive| + 1, 0);
    } else {
      SpelledEnds(names);
      LastShort(names);
      var head, last := drive + [COLON], names[|names| - 1];
      assert t[|t| - 1] == t[|t| - |last|..][|last| - 1];
      TrimPlaced(head, t, after);
      CutPlaced(head, t, after, last, |names| == 1);
      SplitBy(path, |drive|, |drive| + 1 + |t|, if |names| == 1 then 0 else |drive| + |t| - |names[|names| - 1]|);
    }
  }

  lemma LastShort(names: seq<Name>)
    requires names != [] && forall i :: 0 <= i < |names| ==> ShortName(names[i])
    ensures var last := names[|names| - 1];
            1 <= |last| <= 48 && forall i :: 0 <= i < |last| ==> last[i] != SEPARATOR
  {
    assert ShortName(names[|names| - 1]);
  }

  /** What `split_path` answers, from the places it finds. */
  lemma SplitBy(path: Text, d: nat, length: nat, cut: nat)
    requires IndexOf(path, COLON) == d < |path| && NoSlashes(path) && d + 1 <= length <= |path|
    requires length > d + 1 ==> Trimmed(path, d + 1, |path|) == length && LastCut(path, d + 1, length) == cut
    requires length == d + 1 ==> |path| == length
    ensures Split(path).Some? <==> length > d + 1 && length - cut - 1 < 49 && cut < PATH_MAX
  {
    hide NoSlashes;
    hide IndexOf;
    hide LastCut;
  }

  lemma NoneSpelled()
    ensures Spelled([]) == []
  {
  }

  lemma ValidLength(drive: Text, path: Text)
    requires PathValid(drive, path)
    ensures |path| < PATH_MAX
  {
  }

  lemma ValidSlashes(drive: Text, path: Text)
    requires KnownDrive(drive) && PathValid(drive, path)
    ensures NoSlashes(path)
  {
    var rest := path[|drive| + 1..];
    forall i | 0 <= i < |path|
      ensures path[i] != SLASH && path[i] != BACKSLASH
    {
      if i > |drive| { assert path[i] == rest[i - |drive| - 1]; }
      assert (drive + [COLON]) == path[..|drive| + 1];
      if i <= |drive| { assert path[i] == (drive + [COLON])[i]; }
    }
  }

  lemma TrimPlaced(head: Text, t: Text, after: Text)
    requires t != [] && t[|t| - 1] != SEPARATOR && (after == [] || after == [SEPARATOR])
    ensures var path := head + (t + after); Trimmed(path, |head|, |path|) == |head| + |t|
  {
    hide Trimmed;
    Placed(head, t, after, |t| - 1);
    AfterPlaced(head, t, after);
    TrimmedIs(head + (t + after), |head|, |head| + |t|);
  }

  lemma CutPlaced(head: Text, t: Text, after: Text, last: Text, first: bool)
    requires head != [] && last != [] && |last| <= |t| && t[|t| - |last|..] == last
    requires forall i :: 0 <= i < |last| ==> last[i] != SEPARATOR
    requires if first then |t| == |last| else |t| > |last| && t[|t| - |last| - 1] == SEPARATOR
    ensures LastCut(head + (t + after), |head|, |head| + |t|) == if first then 0 else |head| + |t| - |last| - 1
  {
    hide LastCut;
    EndPlaced(head, t, after, last);
    if !first { Placed(head, t, after, |t| - |last| - 1); }
    CutIs(head + (t + after), |head|, |head| + |t|, |last|, first);
  }

  lemma EndPlaced(head: Text, t: Text, after: Text, last: Text)
    requires |last| <= |t| && t[|t| - |last|..] == last && forall i :: 0 <= i < |last| ==> last[i] != SEPARATOR
    ensures var path, length := head + (t + after), |head| + |t|;
            forall i :: length - |last| <= i < length ==> path[i] != SEPARATOR
  {
    var path, length := head + (t + after), |head| + |t|;
    forall i | length - |last| <= i < length
      ensures path[i] != SEPARATOR
    {
      Placed(head, t, after, i - |head|);
      assert t[|t| - |last|..][i - length + |last|] == last[i - length + |last|];
    }
  }

  lemma Placed(head: Text, t: Text, after: Text, i: nat)
    requires i < |t|
    ensures (head + (t + after))[|head| + i] == t[i]
  {
  }

  lemma AfterPlaced(head: Text, t: Text, after: Text)
    requires after == [] || after == [SEPARATOR]
    ensures var path := head + (t + after);
            forall i :: |head| + |t| <= i < |path| ==> path[i] == SEPARATOR
  {
  }

  lemma TrimmedIs(path: Text, low: nat, length: nat)
    requires low < length <= |path| && path[length - 1] != SEPARATOR
    requires forall i :: length <= i < |path| ==> path[i] == SEPARATOR
    ensures Trimmed(path, low, |path|) == length
  {
    hide Trimmed;
    var r := Trimmed(path, low, |path|);
  }

  lemma CutIs(path: Text, low: nat, length: nat, size: nat, first: bool)
    requires 0 < size && low <= length - size && length <= |path| && low > 0
    requires forall i :: length - size <= i < length ==> path[i] != SEPARATOR
    requires first ==> low == length - size
    requires !first ==> low < length - size && path[length - size - 1] == SEPARATOR
    ensures LastCut(path, low, length) == if first then 0 else length - size - 1
  {
    hide LastCut;
    var r := LastCut(path, low, length);
  }

  /** On every path the system-call gate accepts, `split_path` cuts off exactly the last component
      that `find_path` would walk, and that component is a legal name. */
  lemma SplitParses(drive: Text, path: Text)
    requires KnownDrive(drive) && IsCString(path) && PathValid(drive, path) && Split(path).Some?
    ensures var (parent, name) := Split(path).value;
            && LegalName(name)
            && Parse(path) == match Parse(parent) case None => None case Some(c) => Some(c + [name])
  {
    hide Split;
    hide Parse;
    hide PathValid;
    hide Components;
    hide KnownDrive;
    hide IsCString;
    var s, tail := SplitHasShape(drive, path);
    var (parent, name) := Split(path).value;
    ParseDrive(drive, s);
    if s == [] {
      ParseDrive(drive, name + tail);
      ComponentsTail(name, tail);
      assert [] + [name] == [name];
    } else {
      ParseDrive(drive, s + [SEPARATOR] + name + tail);
      ComponentsAppend(s, name, tail);
    }
  }

  lemma ComponentsTail(name: Name, tail: Text)
    requires PlainName(name) && (tail == [] || tail == [SEPARATOR])
    ensures Components(name + tail) == Some([name]) && Components([]) == Some([])
  {
    ComponentsOne(name);
    assert name + [] == name;
  }

  lemma TidyNext(s: Text, i: nat)
    requires Tidy(s) && i + 1 < |s| && s[i] == SEPARATOR
    ensures s[i + 1] != SEPARATOR
  {
  }

  lemma TailShort(rest: Text, n: nat)
    requires Tidy(rest) && n <= |rest| && forall i :: n <= i < |rest| ==> rest[i] == SEPARATOR
    ensures rest[n..] == [] || rest[n..] == [SEPARATOR]
  {
    hide Tidy;
    if |rest| - n >= 2 { TidyNext(rest, n); }
  }
}
