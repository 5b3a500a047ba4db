/** Mount options on their way through a comma-separated list, and the reader at its end. */
module MountOptions {
  import opened Options

  datatype MountOption =
    | FSName(name: string) | Subtype(subtype: string) | Custom(value: string)
    | AutoUnmount | DefaultPermissions
    | Dev | NoDev | Suid | NoSuid | RO | RW | Exec | NoExec | Atime | NoAtime | DirSync | Sync | Async

  // ----- Spelling -----

  function Keyword(o: MountOption): (s: string)
    requires !o.FSName? && !o.Subtype? && !o.Custom?
    ensures Plain(s) && |s| > 0
  {
    match o
    case AutoUnmount => "auto_unmount"
    case DefaultPermissions => "default_permissions"
    case Dev => "dev"
    case NoDev => "nodev"
    case Suid => "suid"
    case NoSuid => "nosuid"
    case RO => "ro"
    case RW => "rw"
    case Exec => "exec"
    case NoExec => "noexec"
    case Atime => "atime"
    case NoAtime => "noatime"
    case DirSync => "dirsync"
    case Sync => "sync"
    case Async => "async"
  }

  const FSNAME := "fsname="
  const SUBTYPE := "subtype="

  function ToString(o: MountOption): string {
    match o
    case FSName(name) => FSNAME + name
    case Subtype(subtype) => SUBTYPE + subtype
    case Custom(value) => value
    case _ => Keyword(o)
  }

  function Escape(value: string): string {
    if value == "" then ""
    else (if value[0] == ',' || value[0] == '\\' then ['\\'] else []) + [value[0]] + Escape(value[1..])
  }

  lemma EscapeNext(value: string, i: nat)
    requires i < |value|
    ensures Escape(value[i..])
            == (if value[i] == ',' || value[i] == '\\' then ['\\'] else []) + [value[i]] + Escape(value[i + 1..])
  {
    assert value[i..][1..] == value[i + 1..];
  }

  method EscapeOptionValue(value: string) returns (escaped: string)
    ensures escaped == Escape(value)
  {
    assert Escape(value[|value|..]) == "" && value[0..] == value;
    hide Escape;
    escaped := "";
    for i := 0 to |value|
      invariant escaped + Escape(value[i..]) == Escape(value)
    {
      EscapeNext(value, i);
      if value[i] == ',' || value[i] == '\\' {
        escaped := escaped + ['\\'];
      }
      escaped := escaped + [value[i]];
    }
  }

  function ToEscapedString(o: MountOption): string {
    match o
    case FSName(name) => FSNAME + Escape(name)
    case _ => ToString(o)
  }

  function FromString(s: string): MountOption {
    match s
    case "auto_unmount" => AutoUnmount
    case "default_permissions" => DefaultPermissions
    case "dev" => Dev
    case "nodev" => NoDev
    case "suid" => Suid
    case "nosuid" => NoSuid
    case "ro" => RO
    case "rw" => RW
    case "exec" => Exec
    case "noexec" => NoExec
    case "atime" => Atime
    case "noatime" => NoAtime
    case "dirsync" => DirSync
    case "sync" => Sync
    case "async" => Async
    case _ =>
      if FSNAME <= s then FSName(s[7..])
      else if SUBTYPE <= s then Subtype(s[8..])
      else Custom(s)
  }

  const KEYWORDS: set<string> :=
    {"auto_unmount", "default_permissions", "dev", "nodev", "suid", "nosuid", "ro", "rw", "exec", "noexec", "atime",
     "noatime", "dirsync", "sync", "async"}

  /** A text that stands for one of the options with a name of their own. */
  predicate SpellsKnown(s: string) { s in KEYWORDS || FSNAME <= s || SUBTYPE <= s }

  /** An option is recognized in its own spelling, unless it is a custom one that spells
      another. */
  lemma FromToString(o: MountOption)
    ensures FromString(ToString(o)) == o <==> !(o.Custom? && SpellsKnown(o.value))
  {
    match o
    case FSName(name) =>
      NotAKeyword(FSNAME, name);
    case Subtype(subtype) =>
      NotAKeyword(SUBTYPE, subtype);
    case Custom(value) =>
    case _ =>
  }

  lemma NotAKeyword(prefix: string, rest: string)
    requires prefix == FSNAME || prefix == SUBTYPE
    ensures prefix + rest !in KEYWORDS && (prefix + rest)[|prefix|..] == rest
    ensures prefix == SUBTYPE ==> !(FSNAME <= prefix + rest)
  {
    var s := prefix + rest;
    assert '=' in s by { assert s[|prefix| - 1] == '='; }
    assert s[0] == prefix[0];
  }

  // ----- What may be in a value -----

  predicate Plain(s: string) { forall i | 0 <= i < |s| :: s[i] != '\0' && s[i] != ',' && s[i] != '\\' }

  predicate NoNul(s: string) { forall i | 0 <= i < |s| :: s[i] != '\0' }

  predicate ValueAllowed(o: MountOption) {
    match o
    case FSName(name) => NoNul(name)
    case Subtype(subtype) => Plain(subtype)
    case Custom(value) => Plain(value)
    case _ => true
  }

  /** Only a name may have a comma or a backslash in it, for it alone is escaped; and nothing may
      have a zero. */
  lemma ValueAllowedIff(o: MountOption)
    ensures ValueAllowed(o) <==> match o
                                 case FSName(name) => '\0' !in name
                                 case Subtype(subtype) => '\0' !in subtype && ',' !in subtype && '\\' !in subtype
                                 case Custom(value) => '\0' !in value && ',' !in value && '\\' !in value
                                 case _ => true
  {
  }

  method CheckOptionValues(options: seq<MountOption>) returns (ok: bool)
    ensures ok <==> forall k | 0 <= k < |options| :: ValueAllowed(options[k])
  {
    for k := 0 to |options|
      invariant forall j | 0 <= j < k :: ValueAllowed(options[j])
    {
      var good := true;
      match options[k] {
        case FSName(name) => good := CheckOptionValue(name, ['\0']);
        case Subtype(subtype) => good := CheckOptionValue(subtype, ['\0', ',', '\\']);
        case Custom(value) => good := CheckOptionValue(value, ['\0', ',', '\\']);
        case _ =>
      }
      if !good {
        return false;
      }
    }
    return true;
  }

  method CheckOptionValue(value: string, invalid: seq<char>) returns (ok: bool)
    ensures ok <==> forall i | 0 <= i < |value| :: value[i] !in invalid
  {
    for i := 0 to |value|
      invariant forall j | 0 <= j < i :: value[j] !in invalid
    {
      if value[i] in invalid {
        return false;
      }
    }
    return true;
  }

  // ----- The list and its reader -----

  function Join(parts: seq<string>): string {
    if parts == [] then "" else if |parts| == 1 then parts[0] else parts[0] + "," + Join(parts[1..])
  }

  predicate Octal(c: char, top: char) { '0' <= c <= top }

  function Digit(c: char): nat
    requires '0' <= c
  {
    c as nat - '0' as nat
  }

  /** How libfuse and fusermount take the list apart: a comma ends an option, a backslash takes
      the next character literally or begins an octal code, and a zero ends the list. `read`
      is the option so far. */
  function Read(s: string, read: string): seq<string>
    decreases |s|
  {
    if s == "" || s[0] == '\0' then [read]
    else if s[0] == ',' then [read] + Read(s[1..], "")
    else if s[0] == '\\' && |s| > 1 && s[1] != '\0' then
      if |s| > 3 && Octal(s[1], '3') && Octal(s[2], '7') && Octal(s[3], '7') then
        Read(s[4..], read + [(64 * Digit(s[1]) + 8 * Digit(s[2]) + Digit(s[3])) as char])
      else
        Read(s[2..], read + [s[1]])
    else
      Read(s[1..], read + [s[0]])
  }

  /** One character, escaped where it has to be, adds itself to what was read. */
  lemma ReadOne(c: char, more: string, read: string)
    requires c != '\0'
    ensures Read(Escape([c]) + more, read) == Read(more, read + [c])
  {
  }

  /** An escaped value is read back whole, whatever follows it. */
  lemma {:induction false} ReadEscaped(value: string, rest: string, read: string)
    requires NoNul(value)
    ensures Read(Escape(value) + rest, read) == Read(rest, read + value)
  {
    hide Read;
    if value == "" {
      assert Escape(value) + rest == rest && read + value == read;
    } else {
      var c, more := value[0], Escape(value[1..]) + rest;
      ReadOne(c, more, read);
      assert [c] + value[1..] == value;
      EscapeAppend([c], value[1..]);
      assert Escape(value) + rest == Escape([c]) + more;
      ReadEscaped(value[1..], rest, read + [c]);
      assert read + [c] + value[1..] == read + value;
    }
  }

  lemma {:induction false} PlainIsEscaped(s: string)
    requires Plain(s)
    ensures Escape(s) == s && NoNul(s)
  {
    if s != "" {
      PlainIsEscaped(s[1..]);
      assert s == [s[0]] + s[1..];
    }
  }

  lemma {:induction false} EscapeAppend(a: string, b: string)
    ensures Escape(a + b) == Escape(a) + Escape(b)
  {
    if a == "" {
      assert a + b == b;
    } else {
      assert (a + b)[1..] == a[1..] + b;
      EscapeAppend(a[1..], b);
    }
  }

  /** For an option whose value is allowed, what is written into the list is the escaped form
      of its plain text. */
  lemma WrittenEscaped(o: MountOption)
    requires ValueAllowed(o)
    ensures ToEscapedString(o) == Escape(ToString(o)) && NoNul(ToString(o))
  {
    match o
    case FSName(name) =>
      PlainIsEscaped(FSNAME);
      EscapeAppend(FSNAME, name);
    case Subtype(subtype) =>
      PlainIsEscaped(SUBTYPE + subtype);
    case _ =>
      PlainIsEscaped(ToString(o));
  }

  function Escaped(parts: seq<string>): seq<string> { seq(|parts|, k requires 0 <= k < |parts| => Escape(parts[k])) }

  lemma {:induction false} ReadJoined(parts: seq<string>)
    requires parts != [] && forall k | 0 <= k < |parts| :: NoNul(parts[k])
    ensures Read(Join(Escaped(parts)), "") == parts
  {
    if |parts| == 1 {
      ReadEscaped(parts[0], "", "");
      assert Escape(parts[0]) + "" == Escape(parts[0]) && "" + parts[0] == parts[0];
    } else {
      var rest := Join(Escaped(parts[1..]));
      assert Escaped(parts)[1..] == Escaped(parts[1..]);
      assert Join(Escaped(parts)) == Escape(parts[0]) + ("," + rest);
      ReadEscaped(parts[0], "," + rest, "");
      assert "" + parts[0] == parts[0] && ("," + rest)[1..] == rest;
      ReadJoined(parts[1..]);
      assert parts == [parts[0]] + parts[1..];
    }
  }

  /** The pieces handed to fusermount: the options and what the session's access adds. */
  function Pieces(options: seq<MountOption>, access: seq<string>): seq<string> {
    seq(|options|, k requires 0 <= k < |options| => ToEscapedString(options[k])) + access
  }

  function Texts(options: seq<MountOption>, access: seq<string>): seq<string> {
    seq(|options|, k requires 0 <= k < |options| => ToString(options[k])) + access
  }

  /** A list of allowed options is read as exactly those options, so that no value can bring
      in another; and each is recognized as the option it was, unless it is a custom one that
      spells a known option. */
  lemma OptionsSurvive(options: seq<MountOption>, access: seq<string>)
    requires forall k | 0 <= k < |options| :: ValueAllowed(options[k])
    requires access == [] || access == ["allow_other"]
    requires options != [] || access != []
    ensures Read(Join(Pieces(options, access)), "") == Texts(options, access)
    ensures forall k | 0 <= k < |options| ::
              FromString(Texts(options, access)[k]) == options[k] <==> !(options[k].Custom? && SpellsKnown(options[k].value))
  {
    hide Escape, Read, Join, ToString, ToEscapedString, FromString, SpellsKnown, ValueAllowed;
    var texts := Texts(options, access);
    forall k | 0 <= k < |texts| ensures NoNul(texts[k]) && Pieces(options, access)[k] == Escape(texts[k]) {
      if k < |options| {
        WrittenEscaped(options[k]);
      } else {
        PlainIsEscaped("allow_other");
      }
    }
    assert Pieces(options, access) == Escaped(texts);
    ReadJoined(texts);
    forall k | 0 <= k < |options|
      ensures FromString(texts[k]) == options[k] <==> !(options[k].Custom? && SpellsKnown(options[k].value))
    {
      FromToString(options[k]);
    }
  }

  // ----- Conflicts -----

  function Opposite(o: MountOption): Option<MountOption> {
    match o
    case Dev => Some(NoDev)
    case NoDev => Some(Dev)
    case Suid => Some(NoSuid)
    case NoSuid => Some(Suid)
    case RO => Some(RW)
    case RW => Some(RO)
    case Exec => Some(NoExec)
    case NoExec => Some(Exec)
    case Atime => Some(NoAtime)
    case NoAtime => Some(Atime)
    case Sync => Some(Async)
    case Async => Some(Sync)
    case _ => None
  }

  /** Two words that contradict each other: one is the other with `no` in front, or they are
      the two ways to mount or to write. */
  predicate Contradict(a: string, b: string) {
    || (a in {"dev", "suid", "exec", "atime"} && b == "no" + a)
    || (b in {"dev", "suid", "exec", "atime"} && a == "no" + b)
    || (a == "ro" && b == "rw") || (a == "rw" && b == "ro")
    || (a == "sync" && b == "async") || (a == "async" && b == "sync")
  }

  predicate HasKeyword(o: MountOption) { !o.FSName? && !o.Subtype? && !o.Custom? }

  predicate Opposed(o: MountOption, p: MountOption) {
    HasKeyword(o) && HasKeyword(p) && Contradict(Keyword(o), Keyword(p))
  }

  lemma NotNegated(a: string, b: string)
    requires |a| > 0 && a[0] != 'n'
    ensures a != "no" + b
  {
    assert ("no" + b)[0] == 'n';
  }

  /** The one word that contradicts an option's keyword, if any does, is its opposite's. */
  lemma OppositeWord(o: MountOption, word: string)
    requires HasKeyword(o)
    ensures Contradict(Keyword(o), word) <==> Opposite(o).Some? && word == ToString(Opposite(o).value)
  {
    assert "no" + "dev" == "nodev" && "no" + "suid" == "nosuid" && "no" + "exec" == "noexec" && "no" + "atime" == "noatime";
    if !(o.NoDev? || o.NoSuid? || o.NoExec? || o.NoAtime?) {
      NotNegated(Keyword(o), word);
    }
  }

  lemma OppositeHasKeyword(o: MountOption)
    ensures Opposite(o).Some? ==> HasKeyword(o) && HasKeyword(Opposite(o).value)
  {
  }

  lemma SameKeyword(o: MountOption, p: MountOption)
    requires HasKeyword(o) && HasKeyword(p) && Keyword(o) == Keyword(p)
    ensures o == p
  {
    FromToString(o);
    FromToString(p);
    hide Keyword;
  }

  /** An option's opposite is the one whose keyword contradicts its own; names, subtypes and
      custom options have none. */
  lemma OppositeIff(o: MountOption, p: MountOption)
    ensures Opposite(o) == Some(p) <==> Opposed(o, p)
  {
    OppositeHasKeyword(o);
    hide Opposite, Keyword, Contradict;
    if HasKeyword(o) && HasKeyword(p) {
      OppositeWord(o, Keyword(p));
      if Opposite(o).Some? && Keyword(p) == Keyword(Opposite(o).value) {
        SameKeyword(p, Opposite(o).value);
      }
    }
  }

  lemma OppositesAgree(o: MountOption)
    ensures Opposite(o).Some? ==> Opposite(o).value != o && Opposite(Opposite(o).value) == Some(o)
  {
  }

  /** A configuration passes exactly when no option in it contradicts another. */
  method CheckOptionConflicts(options: seq<MountOption>) returns (ok: bool)
    ensures ok <==> forall j, k | 0 <= j < k < |options| :: !Opposed(options[j], options[k])
  {
    var all: set<MountOption> := {};
    var conflicting: set<MountOption> := {};
    for i := 0 to |options|
      invariant all == set k | 0 <= k < i :: options[k]
      invariant forall c :: c in conflicting <==> exists k :: 0 <= k < i && Opposite(options[k]) == Some(c)
    {
      all := all + {options[i]};
      var o := Opposite(options[i]);
      if o.Some? {
        conflicting := conflicting + {o.value};
      }
    }
    ok := conflicting * all == {};
    hide Opposed, Opposite;
    if ok {
      forall j, k | 0 <= j < k < |options|
        ensures !Opposed(options[j], options[k])
      {
        OppositeIff(options[j], options[k]);
        assert options[k] in all && options[k] !in conflicting * all;
      }
    } else {
      var c :| c in conflicting * all;
      var j, k :| 0 <= j < |options| && 0 <= k < |options| && Opposite(options[j]) == Some(c) && options[k] == c;
      OppositesAgree(options[j]);
      OppositeIff(options[j], options[k]);
      OppositeIff(options[k], options[j]);
      assert j < k || k < j;
    }
  }
}
