/** RSAVerifier's `VerifierOptions`: the command-line options record and the
    left-to-right parser that fills it. */
module VerifierArgs {
  import opened Runtime
  import opened Text

  /** The values of the six properties of a `VerifierOptions` object. */
  datatype Settings = Settings(
    payloadPath: Option<string>,
    signaturePath: Option<string>,
    keyPath: Option<string>,
    encoding: string,
    isFile: bool,
    isSigFile: bool)

  /** A fresh object: paths null, `Encoding = "base64"`, flags false. */
  const Defaults := Settings(None, None, None, "base64", false, false)

  /** The flags that take the next argument as their value. */
  const ValueFlags: set<string> := {"-file", "-payload", "-signature", "-sigfile", "-key", "-encoding"}
  const HelpFlags: set<string> := {"-h", "-help", "--help"}

  function MissingValue(flag: string): Exception
  {
    ArgumentException("Missing value for " + flag + " parameter")
  }

  const BadEncoding := ArgumentException("Encoding must be 'base64' or 'hex'")

  /** The assignments of the case for value-taking `flag` (lower-cased). */
  function Assign(st: Settings, flag: string, value: string): Settings
  {
    if flag == "-file" then st.(payloadPath := Some(value), isFile := true)
    else if flag == "-payload" then st.(payloadPath := Some(value), isFile := false)
    else if flag == "-signature" then st.(signaturePath := Some(value), isSigFile := false)
    else if flag == "-sigfile" then st.(signaturePath := Some(value), isSigFile := true)
    else if flag == "-key" then st.(keyPath := Some(value))
    else if flag == "-encoding" then st.(encoding := ToLower(value))
    else st
  }

  /** `ValidateOptions`: the first missing required path, if any. */
  function Validate(st: Settings): (r: Option<Exception>)
    ensures r.None? <==> Present(st.payloadPath) && Present(st.signaturePath) && Present(st.keyPath)
    ensures r.Some? ==> r.value.ArgumentException?
  {
    if !Present(st.payloadPath) then Some(ArgumentException("Either -file or -payload parameter is required"))
    else if !Present(st.signaturePath) then Some(ArgumentException("Either -signature or -sigfile parameter is required"))
    else if !Present(st.keyPath) then Some(ArgumentException("-key parameter is required"))
    else None
  }

  /** The parse from position `i` onwards with the options so far in `st`:
      one case of the `switch (args[i].ToLower())` per step. */
  function ParseFrom(args: seq<string>, i: nat, st: Settings): ParseOutcome<Settings>
    requires i <= |args|
    decreases |args| - i
  {
    if i == |args| then
      match Validate(st)
      case Some(ex) => Rejected(ex)
      case None => Parsed(st)
    else
      var flag := ToLower(args[i]);
      if flag in ValueFlags then
        if i + 1 >= |args| then Rejected(MissingValue(flag))
        else if flag == "-encoding" && !IsEncodingName(ToLower(args[i + 1])) then Rejected(BadEncoding)
        else ParseFrom(args, i + 2, Assign(st, flag, args[i + 1]))
      else if flag in HelpFlags then HelpShown
      else Rejected(ArgumentException("Unknown parameter: " + args[i]))
  }

  /** What `ParseArguments(args)` does. */
  function Parse(args: seq<string>): ParseOutcome<Settings>
  {
    ParseFrom(args, 0, Defaults)
  }

  /** What a successful parse guarantees: all three paths are non-null and
      non-empty, and the encoding is "base64" or "hex". */
  predicate Complete(st: Settings)
  {
    Present(st.payloadPath) && Present(st.signaturePath) && Present(st.keyPath) && IsEncodingName(st.encoding)
  }

  /** A `VerifierOptions` object. */
  class VerifierOptions {
    var payloadPath: Option<string>
    var signaturePath: Option<string>
    var keyPath: Option<string>
    var encoding: string
    var isFile: bool
    var isSigFile: bool

    function Values(): Settings
      reads this
    {
      Settings(payloadPath, signaturePath, keyPath, encoding, isFile, isSigFile)
    }

    constructor ()
      ensures Values() == Defaults
    {
      payloadPath, signaturePath, keyPath := None, None, None;
      encoding := "base64";
      isFile, isSigFile := false, false;
    }

    /** `ParseArguments`: walk the arguments once, filling a new object. */
    static method ParseArguments(args: seq<string>) returns (r: ParseOutcome<VerifierOptions>)
      ensures r.Parsed? <==> Parse(args).Parsed?
      ensures r.Parsed? ==> r.options.Values() == Parse(args).options
      ensures r.Rejected? ==> Parse(args) == Rejected(r.error)
      ensures r.HelpShown? <==> Parse(args).HelpShown?
      ensures r.Parsed? ==> Complete(r.options.Values())
      ensures r.Rejected? ==> r.error.ArgumentException?
      ensures r.Parsed? ==> fresh(r.options)
    {
      var options := new VerifierOptions();
      var i := 0;
      while i < |args|
        invariant 0 <= i <= |args|
        invariant Parse(args) == ParseFrom(args, i, options.Values())
        invariant IsEncodingName(options.encoding)
        decreases |args| - i
      {
        var flag := ToLower(args[i]);
        if flag == "-file" {
          if i + 1 >= |args| { return Rejected(MissingValue("-file")); }
          i := i + 1;
          options.payloadPath := Some(args[i]);
          options.isFile := true;
        } else if flag == "-payload" {
          if i + 1 >= |args| { return Rejected(MissingValue("-payload")); }
          i := i + 1;
          options.payloadPath := Some(args[i]);
          options.isFile := false;
        } else if flag == "-signature" {
          if i + 1 >= |args| { return Rejected(MissingValue("-signature")); }
          i := i + 1;
          options.signaturePath := Some(args[i]);
          options.isSigFile := false;
        } else if flag == "-sigfile" {
          if i + 1 >= |args| { return Rejected(MissingValue("-sigfile")); }
          i := i + 1;
          options.signaturePath := Some(args[i]);
          options.isSigFile := true;
        } else if flag == "-key" {
          if i + 1 >= |args| { return Rejected(MissingValue("-key")); }
          i := i + 1;
          options.keyPath := Some(args[i]);
        } else if flag == "-encoding" {
          if i + 1 >= |args| { return Rejected(MissingValue("-encoding")); }
          i := i + 1;
          options.encoding := ToLower(args[i]);
          if options.encoding != "base64" && options.encoding != "hex" {
            return Rejected(BadEncoding);
          }
        } else if flag == "-h" || flag == "-help" || flag == "--help" {
          return HelpShown;
        } else {
          return Rejected(ArgumentException("Unknown parameter: " + args[i]));
        }
        i := i + 1;
      }
      match Validate(options.Values())
      case Some(ex) => return Rejected(ex);
      case None => return Parsed(options);
    }
  }

  /** The property groups that the flags write. */
  datatype Field = PayloadField | SignatureField | KeyField | EncodingField

  /** The flags whose case writes `f`. */
  function Writers(f: Field): set<string>
  {
    match f
    case PayloadField => {"-file", "-payload"}
    case SignatureField => {"-signature", "-sigfile"}
    case KeyField => {"-key"}
    case EncodingField => {"-encoding"}
  }

  /** The properties in group `f`: a path (or the encoding) and its flag. */
  function Get(st: Settings, f: Field): (Option<string>, bool)
  {
    match f
    case PayloadField => (st.payloadPath, st.isFile)
    case SignatureField => (st.signaturePath, st.isSigFile)
    case KeyField => (st.keyPath, false)
    case EncodingField => (Some(st.encoding), false)
  }

  /** The positions the parse from `i` reads as flags: it starts at `i`,
      steps over the value of each value-taking flag, and stops at the first
      help flag, unknown argument or trailing value flag. A value, even one
      that spells a flag, is never among them. */
  function FlagPositions(args: seq<string>, i: nat): (r: set<nat>)
    requires i <= |args|
    ensures forall k :: k in r ==> i <= k < |args|
    ensures i < |args| ==> i in r
    decreases |args| - i
  {
    if i == |args| then {}
    else if ToLower(args[i]) in ValueFlags && i + 1 < |args| then {i} + FlagPositions(args, i + 2)
    else {i}
  }

  /** With no writer of `f` in flag position, a successful parse leaves `f`
      as it is. */
  lemma {:induction false} NoWriterKeepsField(args: seq<string>, i: nat, st: Settings, f: Field)
    requires i <= |args|
    requires forall k :: k in FlagPositions(args, i) ==> ToLower(args[k]) !in Writers(f)
    ensures ParseFrom(args, i, st).Parsed? ==> Get(ParseFrom(args, i, st).options, f) == Get(st, f)
    decreases |args| - i
  {
    if i < |args| {
      var flag := ToLower(args[i]);
      if flag in ValueFlags && i + 1 < |args| {
        NoWriterKeepsField(args, i + 2, Assign(st, flag, args[i + 1]), f);
      }
    }
  }

  /** A writer of `f` in flag position: a successful parse goes on after
      its value, and what it sets in `f` does not depend on earlier flags. */
  lemma WriterStep(args: seq<string>, i: nat, st: Settings, f: Field)
    requires i + 1 < |args| && ToLower(args[i]) in Writers(f)
    ensures ParseFrom(args, i, st).Parsed? ==>
      ParseFrom(args, i, st) == ParseFrom(args, i + 2, Assign(st, ToLower(args[i]), args[i + 1]))
    ensures Get(Assign(st, ToLower(args[i]), args[i + 1]), f) == Get(Assign(Defaults, ToLower(args[i]), args[i + 1]), f)
    ensures FlagPositions(args, i + 2) <= FlagPositions(args, i)
  {
  }

  /** The parse from the last writer of `f` ends with `f` as it sets it. */
  lemma LastWriterAt(args: seq<string>, i: nat, st: Settings, f: Field)
    requires i + 1 < |args| && ToLower(args[i]) in Writers(f)
    requires forall k :: k in FlagPositions(args, i) && i < k ==> ToLower(args[k]) !in Writers(f)
    ensures ParseFrom(args, i, st).Parsed? ==>
      Get(ParseFrom(args, i, st).options, f) == Get(Assign(Defaults, ToLower(args[i]), args[i + 1]), f)
  {
    WriterStep(args, i, st, f);
    NoWriterKeepsField(args, i + 2, Assign(st, ToLower(args[i]), args[i + 1]), f);
  }

  /** A flag position before `i` holds a value flag that the parse steps
      over to reach `i`. */
  lemma PassStep(args: seq<string>, j: nat, st: Settings, i: nat)
    requires j <= |args| && i in FlagPositions(args, j) && j != i
    ensures j + 1 < |args| && ToLower(args[j]) in ValueFlags
    ensures i in FlagPositions(args, j + 2) && FlagPositions(args, j + 2) <= FlagPositions(args, j)
    ensures ParseFrom(args, j, st).Parsed? ==>
      ParseFrom(args, j, st) == ParseFrom(args, j + 2, Assign(st, ToLower(args[j]), args[j + 1]))
  {
  }

  /** The parse from `j` with a writer of `f` at flag position `i` and no
      writer of `f` at a later flag position: a successful parse ends with
      `f` as that writer sets it. */
  lemma {:induction false} LastWriterFrom(args: seq<string>, j: nat, st: Settings, i: nat, f: Field)
    requires j <= |args| && i in FlagPositions(args, j)
    requires i + 1 < |args| && ToLower(args[i]) in Writers(f)
    requires forall k :: k in FlagPositions(args, j) && i < k ==> ToLower(args[k]) !in Writers(f)
    ensures ParseFrom(args, j, st).Parsed? ==>
      Get(ParseFrom(args, j, st).options, f) == Get(Assign(Defaults, ToLower(args[i]), args[i + 1]), f)
    decreases |args| - j
  {
    if j == i {
      LastWriterAt(args, i, st, f);
    } else {
      PassStep(args, j, st, i);
      LastWriterFrom(args, j + 2, Assign(st, ToLower(args[j]), args[j + 1]), i, f);
    }
  }

  /** Last flag wins: when the flag at flag position `i` writes `f` and no
      later flag does, a successful parse has `f` as that flag sets it,
      whatever earlier flags set. */
  lemma LastWriterWins(args: seq<string>, i: nat, f: Field)
    requires i in FlagPositions(args, 0) && i + 1 < |args| && ToLower(args[i]) in Writers(f)
    requires forall k :: k in FlagPositions(args, 0) && i < k ==> ToLower(args[k]) !in Writers(f)
    ensures Parse(args).Parsed? ==>
      Get(Parse(args).options, f) == Get(Assign(Defaults, ToLower(args[i]), args[i + 1]), f)
  {
    LastWriterFrom(args, 0, Defaults, i, f);
  }

  /** `Encoding` is "base64" unless some flag position holds `-encoding`;
      an "-encoding" that is another flag's value does not count. */
  lemma EncodingDefaultsToBase64(args: seq<string>)
    requires forall k :: k in FlagPositions(args, 0) ==> ToLower(args[k]) != "-encoding"
    ensures Parse(args).Parsed? ==> Parse(args).options.encoding == "base64"
  {
    NoWriterKeepsField(args, 0, Defaults, EncodingField);
  }

  /** The argument after a value-taking flag in flag position is that
      flag's value and never itself a flag position. */
  lemma {:induction false} ValueNotFlag(args: seq<string>, j: nat, k: nat)
    requires j <= |args| && k in FlagPositions(args, j)
    requires ToLower(args[k]) in ValueFlags && k + 1 < |args|
    ensures k + 1 !in FlagPositions(args, j)
    decreases |args| - j
  {
    if j != k {
      ValueNotFlag(args, j + 2, k);
    }
  }

  /** A value that spells a flag is not in flag position: in
      `-payload -encoding -key k` only "-payload" and "-key" are read as flags. */
  lemma FlagLikeValue()
    ensures FlagPositions(["-payload", "-encoding", "-key", "k"], 0) == {0, 2}
  {
    var args := ["-payload", "-encoding", "-key", "k"];
    LowerUnchanged(args[0]);
    LowerUnchanged(args[2]);
    assert FlagPositions(args, 2) == {2} + FlagPositions(args, 4);
  }

  lemma {:induction false} ParseFromComplete(args: seq<string>, i: nat, st: Settings)
    requires i <= |args| && IsEncodingName(st.encoding)
    ensures ParseFrom(args, i, st).Parsed? ==> Complete(ParseFrom(args, i, st).options)
    decreases |args| - i
  {
    if i < |args| {
      var flag := ToLower(args[i]);
      if flag in ValueFlags && i + 1 < |args| && (flag == "-encoding" ==> IsEncodingName(ToLower(args[i + 1]))) {
        ParseFromComplete(args, i + 2, Assign(st, flag, args[i + 1]));
      }
    }
  }

  /** Every error the parser raises is an `ArgumentException`. */
  lemma {:induction false} RejectionsAreArgumentExceptions(args: seq<string>, i: nat, st: Settings)
    requires i <= |args|
    ensures ParseFrom(args, i, st).Rejected? ==> ParseFrom(args, i, st).error.ArgumentException?
    decreases |args| - i
  {
    if i < |args| {
      var flag := ToLower(args[i]);
      if flag in ValueFlags && i + 1 < |args| {
        RejectionsAreArgumentExceptions(args, i + 2, Assign(st, flag, args[i + 1]));
      }
    }
  }

  lemma ParsedIsComplete(args: seq<string>)
    ensures Parse(args).Parsed? ==> Complete(Parse(args).options)
  {
    ParseFromComplete(args, 0, Defaults);
  }

  /** A value-taking flag in the last position is rejected; otherwise it
      consumes exactly the next argument, even one that looks like a flag. */
  lemma ValueFlagStep(args: seq<string>, i: nat, st: Settings)
    requires i < |args| && ToLower(args[i]) in ValueFlags
    ensures i + 1 == |args| ==> ParseFrom(args, i, st) == Rejected(MissingValue(ToLower(args[i])))
    ensures i + 1 < |args| && (ToLower(args[i]) == "-encoding" ==> IsEncodingName(ToLower(args[i + 1]))) ==>
      ParseFrom(args, i, st) == ParseFrom(args, i + 2, Assign(st, ToLower(args[i]), args[i + 1]))
    ensures i + 1 < |args| && ToLower(args[i]) == "-encoding" && !IsEncodingName(ToLower(args[i + 1])) ==>
      ParseFrom(args, i, st) == Rejected(BadEncoding)
  {
  }

  /** The parse from `i` reads no argument before `i`. */
  lemma {:induction false} ParseFromReadsSuffix(a: seq<string>, b: seq<string>, i: nat, st: Settings)
    requires i <= |a| == |b|
    requires forall k :: i <= k < |a| ==> a[k] == b[k]
    ensures ParseFrom(a, i, st) == ParseFrom(b, i, st)
    decreases |a| - i
  {
    if i < |a| {
      var flag := ToLower(a[i]);
      if flag in ValueFlags && i + 1 < |a| {
        ParseFromReadsSuffix(a, b, i + 2, Assign(st, flag, a[i + 1]));
      }
    }
  }

  /** Flag names are matched case-insensitively: spelling a recognised flag
      in another case changes nothing. */
  lemma FlagCaseIgnored(args: seq<string>, i: nat, st: Settings, spelling: string)
    requires i < |args| && ToLower(spelling) == ToLower(args[i])
    requires ToLower(args[i]) in ValueFlags + HelpFlags
    ensures ParseFrom(args[i := spelling], i, st) == ParseFrom(args, i, st)
  {
    var flag := ToLower(args[i]);
    if flag in ValueFlags && i + 1 < |args| {
      ParseFromReadsSuffix(args[i := spelling], args, i + 2, Assign(st, flag, args[i + 1]));
    }
  }

  /** Any other argument in flag position is rejected as unknown. */
  lemma UnknownFlagRejected(args: seq<string>, i: nat, st: Settings)
    requires i < |args| && ToLower(args[i]) !in ValueFlags + HelpFlags
    ensures ParseFrom(args, i, st) == Rejected(ArgumentException("Unknown parameter: " + args[i]))
  {
  }
}
