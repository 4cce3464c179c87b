/** The appliance's at-rest key over boots: `ResolveEncryptionKey`, the key file
    it may create, and the command line's second reader of that file. */
module ApplianceKey {
  import opened Wrappers
  import opened Text
  import opened Encoding
  import opened Primitives
  import AtRestCipher

  // -------------------------------------------------------------- Trimming

  predicate IsHexText(s: string) {
    AllOf(s, IsLowerHex)
  }

  ghost predicate LeavesHexAlone(trim: string -> string) {
    forall s :: IsHexText(s) ==> trim(s) == s
  }

  /** `strings.TrimSpace`, known only by this: hex digits are not white space. */
  type Trimmer = trim: string -> string | LeavesHexAlone(trim) ghost witness AsciiTrim()

  /** The ASCII part of it is one. */
  function AsciiTrim(): (trim: string -> string)
    ensures LeavesHexAlone(trim)
  {
    assert forall s :: IsHexText(s) ==> TrimSpace(s) == s by {
      forall s | IsHexText(s)
        ensures TrimSpace(s) == s
      {
        TrimClean(s, IsAsciiSpace);
      }
    }
    TrimSpace
  }

  // -------------------------------------------------------------- One boot

  datatype ReadResult = Content(text: string) | NotExist | Unreadable

  /** What stands at the key path: nothing, a regular file, or something else (a
      link, a directory) together with what reading through it would yield. */
  datatype KeyFile = Absent | Regular(text: string) | Special(through: ReadResult)

  type Seed = b: Bytes | |b| == 32 ghost witness seq(32, _ => 0)

  /** Everything one boot meets from outside: the operator's variable, the random
      bytes, and which of the file operations succeed. `kept` is how much of the
      key a failed write or close leaves behind. */
  datatype Boot = Boot(
    operatorKey: string,
    statWorks: bool,
    readWorks: bool,
    entropy: Option<Seed>,
    createWorks: bool,
    writeWorks: bool,
    closeWorks: bool,
    kept: nat,
    chownWorks: bool,
    chmodWorks: bool)

  datatype KeySource = FromOperator | FromPersisted | Generated

  datatype BootError = NotRegular | EmptyKeyFile | ReadFailed | NoEntropy | PersistFailed | OwnershipFailed

  datatype Resolution = Resolution(key: string, source: KeySource)

  datatype Outcome = Outcome(file: KeyFile, resolved: Result<Resolution, BootError>)

  /** No operator key: the file decides. */
  predicate Unaided(trim: Trimmer, b: Boot) {
    trim(b.operatorKey) == ""
  }

  function ReadThrough(file: KeyFile): ReadResult {
    match file
    case Absent => NotExist
    case Regular(text) => Content(text)
    case Special(through) => through
  }

  /** What an exclusive create and the writes after it leave at the path. */
  function Created(b: Boot, key: string): (file: KeyFile)
    ensures file.Regular? && file.text <= key
  {
    Regular(if (b.writeWorks && b.closeWorks) || b.kept >= |key| then key else key[..b.kept])
  }

  /** One boot, as a function of the file it found. */
  function BootStep(trim: Trimmer, file: KeyFile, b: Boot): Outcome {
    if !Unaided(trim, b) then Outcome(file, Ok(Resolution(trim(b.operatorKey), FromOperator)))
    else if file.Special? && b.statWorks then Outcome(file, Err(NotRegular))
    else if !b.readWorks then Outcome(file, Err(ReadFailed))
    else
      match ReadThrough(file)
      case Content(text) =>
        Outcome(file, if trim(text) == "" then Err(EmptyKeyFile)
                      else Ok(Resolution(trim(text), FromPersisted)))
      case Unreadable => Outcome(file, Err(ReadFailed))
      case NotExist =>
        if b.entropy.None? then Outcome(file, Err(NoEntropy))
        else if !file.Absent? || !b.createWorks then Outcome(file, Err(PersistFailed))
        else
          var key := HexEncode(b.entropy.value);
          Outcome(Created(b, key),
                  if !b.writeWorks || !b.closeWorks then Err(PersistFailed)
                  else if !b.chownWorks || !b.chmodWorks then Err(OwnershipFailed)
                  else Ok(Resolution(key, Generated)))
  }

  class Appliance {
    var file: KeyFile
    /** `cfg.EncryptionKey`. */
    var encryptionKey: string

    /** `ResolveEncryptionKey`: a failed boot leaves the configuration alone, and
        whatever was at the path is never replaced. */
    method ResolveEncryptionKey(trim: Trimmer, b: Boot) returns (r: Result<KeySource, BootError>)
      modifies this
      ensures Outcome(file, if r.Ok? then Ok(Resolution(encryptionKey, r.value)) else Err(r.error))
           == BootStep(trim, old(file), b)
      ensures r.Err? ==> encryptionKey == old(encryptionKey)
      ensures file != old(file) ==> old(file) == Absent && Unaided(trim, b)
    {
      var operatorKey := trim(b.operatorKey);
      if operatorKey != "" {
        encryptionKey := operatorKey;
        return Ok(FromOperator);
      }
      if b.statWorks && file.Special? {
        return Err(NotRegular);
      }
      if !b.readWorks {
        return Err(ReadFailed);
      }
      var raw := ReadThrough(file);
      if raw.Content? {
        var stored := trim(raw.text);
        if stored == "" {
          return Err(EmptyKeyFile);
        }
        encryptionKey := stored;
        return Ok(FromPersisted);
      }
      if !raw.NotExist? {
        return Err(ReadFailed);
      }
      if b.entropy.None? {
        return Err(NoEntropy);
      }
      var key := HexEncode(b.entropy.value);
      if !b.createWorks || file != Absent {
        return Err(PersistFailed);
      }
      file := Created(b, key);
      if !b.writeWorks {
        return Err(PersistFailed);
      }
      if !b.closeWorks {
        return Err(PersistFailed);
      }
      if !b.chownWorks {
        return Err(OwnershipFailed);
      }
      if !b.chmodWorks {
        return Err(OwnershipFailed);
      }
      encryptionKey := key;
      return Ok(Generated);
    }
  }

  // ------------------------------------------------------------- Many boots

  function FileAfter(trim: Trimmer, file: KeyFile, boots: seq<Boot>): KeyFile
    decreases |boots|
  {
    if boots == [] then file else FileAfter(trim, BootStep(trim, file, boots[0]).file, boots[1..])
  }

  /** What boot `i` of a run comes to. */
  function At(trim: Trimmer, file: KeyFile, boots: seq<Boot>, i: nat): Outcome
    requires i < |boots|
    decreases i
  {
    if i == 0 then BootStep(trim, file, boots[0])
    else At(trim, BootStep(trim, file, boots[0]).file, boots[1..], i - 1)
  }

  /** The key a file holds for its readers. */
  function KeyIn(trim: Trimmer, file: KeyFile): (k: Option<string>)
    ensures k.Some? ==> k.value != ""
  {
    match ReadThrough(file)
    case Content(text) => if trim(text) == "" then None else Some(trim(text))
    case _ => None
  }

  lemma PrefixOfHex(bs: Bytes, s: string)
    requires s <= HexEncode(bs)
    ensures IsHexText(s)
  {
  }

  /** A successful boot leaves a file whose readers see the key it resolved. */
  lemma SuccessIsPersisted(trim: Trimmer, file: KeyFile, b: Boot)
    requires Unaided(trim, b) && BootStep(trim, file, b).resolved.Ok?
    ensures BootStep(trim, file, b).file != Absent
    ensures KeyIn(trim, BootStep(trim, file, b).file) == Some(BootStep(trim, file, b).resolved.value.key)
  {
  }

  /** Once something stands at the path, no run changes it, and every unaided
      success reads it. */
  lemma {:induction false} FileSettles(trim: Trimmer, file: KeyFile, boots: seq<Boot>)
    requires file != Absent
    ensures FileAfter(trim, file, boots) == file
    decreases |boots|
  {
    if boots != [] {
      FileSettles(trim, file, boots[1..]);
    }
  }

  lemma {:induction false} SettledBoots(trim: Trimmer, file: KeyFile, boots: seq<Boot>, i: nat)
    requires file != Absent && i < |boots| && Unaided(trim, boots[i])
    ensures var r := At(trim, file, boots, i).resolved;
            r.Ok? ==> KeyIn(trim, file) == Some(r.value.key) && r.value.source == FromPersisted
    decreases i
  {
    if i > 0 {
      SettledBoots(trim, file, boots[1..], i - 1);
    }
  }

  /** Over every run of boots, failed ones and operator-key ones included, all
      unaided successes resolve one key, and only the first can have made it. */
  lemma {:induction false} OneKeyPerVolume(trim: Trimmer, file: KeyFile, boots: seq<Boot>, i: nat, j: nat)
    requires i < j < |boots| && Unaided(trim, boots[i]) && Unaided(trim, boots[j])
    requires At(trim, file, boots, i).resolved.Ok? && At(trim, file, boots, j).resolved.Ok?
    ensures At(trim, file, boots, i).resolved.value.key == At(trim, file, boots, j).resolved.value.key
    ensures At(trim, file, boots, j).resolved.value.source == FromPersisted
    decreases i
  {
    var next := BootStep(trim, file, boots[0]).file;
    if i == 0 {
      SuccessIsPersisted(trim, file, boots[0]);
      SettledBoots(trim, next, boots[1..], j - 1);
    } else {
      OneKeyPerVolume(trim, next, boots[1..], i - 1, j - 1);
    }
  }

  /** The boots without an operator key, in order. */
  function UnaidedOnly(trim: Trimmer, boots: seq<Boot>): seq<Boot> {
    if boots == [] then []
    else (if Unaided(trim, boots[0]) then [boots[0]] else []) + UnaidedOnly(trim, boots[1..])
  }

  /** Operator-key boots leave no trace: striking them from a run ends with the
      same file. */
  lemma {:induction false} OperatorBootsLeaveNoTrace(trim: Trimmer, file: KeyFile, boots: seq<Boot>)
    ensures FileAfter(trim, file, boots) == FileAfter(trim, file, UnaidedOnly(trim, boots))
    decreases |boots|
  {
    if boots != [] {
      OperatorBootsLeaveNoTrace(trim, BootStep(trim, file, boots[0]).file, boots[1..]);
      if Unaided(trim, boots[0]) {
        assert UnaidedOnly(trim, boots)[1..] == UnaidedOnly(trim, boots[1..]);
      } else {
        assert UnaidedOnly(trim, boots) == UnaidedOnly(trim, boots[1..]);
      }
    }
  }

  // -------------------------------------------- A key cut short by a failed write

  /** `k` was born in boot `b`, in full or cut short. */
  ghost predicate BornIn(b: Boot, k: string) {
    b.entropy.Some? && k <= HexEncode(b.entropy.value)
  }

  /** A whole printed key parses to its bytes; a cut one is refused as a key. */
  lemma CutKeyIsRefused(p: Crypto, seed: Seed, k: string)
    requires k <= HexEncode(seed)
    ensures AtRestCipher.ParseKey(p, k).Ok? <==> k == HexEncode(seed)
    ensures k == HexEncode(seed) ==> AtRestCipher.ParseKey(p, k) == Ok(AtRestCipher.Entry(p, seed))
  {
    HexRoundTrip(seed);
  }

  lemma {:induction false} FileBornInRun(trim: Trimmer, boots: seq<Boot>, i: nat) returns (c: nat)
    requires i < |boots| && Unaided(trim, boots[i]) && At(trim, Absent, boots, i).resolved.Ok?
    ensures c <= i && BornIn(boots[c], At(trim, Absent, boots, i).resolved.value.key)
    decreases i
  {
    var next := BootStep(trim, Absent, boots[0]).file;
    if next == Absent {
      c := FileBornInRun(trim, boots[1..], i - 1);
      c := c + 1;
    } else {
      c := 0;
      if i > 0 {
        SettledBoots(trim, next, boots[1..], i - 1);
        PrefixOfHex(boots[0].entropy.value, next.text);
      }
    }
  }

  /** On a fresh volume every key a run resolves was generated by one of its
      boots; the cipher accepts it exactly when it is that boot's whole key, and
      then as those very bytes. A write cut short thus never turns into a working
      key that nobody generated. */
  lemma ResolvedKeysAreGenuine(p: Crypto, trim: Trimmer, boots: seq<Boot>, i: nat)
    requires i < |boots| && Unaided(trim, boots[i]) && At(trim, Absent, boots, i).resolved.Ok?
    ensures var k := At(trim, Absent, boots, i).resolved.value.key;
            exists c: nat :: c <= i && BornIn(boots[c], k)
              && (AtRestCipher.ParseKey(p, k).Ok? <==> k == HexEncode(boots[c].entropy.value))
              && (AtRestCipher.ParseKey(p, k).Ok? ==>
                    AtRestCipher.ParseKey(p, k).value.material == boots[c].entropy.value)
  {
    var c := FileBornInRun(trim, boots, i);
    var k := At(trim, Absent, boots, i).resolved.value.key;
    CutKeyIsRefused(p, boots[c].entropy.value, k);
    HexRoundTrip(boots[c].entropy.value);
  }

  /** A boot on a volume with no file, nothing failing before the write. */
  predicate Creates(trim: Trimmer, b: Boot) {
    Unaided(trim, b) && b.readWorks && b.entropy.Some? && b.createWorks
  }

  predicate Clean(trim: Trimmer, b: Boot) {
    Unaided(trim, b) && b.statWorks && b.readWorks
  }

  /** After a boot that created the file, whatever else failed in it, a clean boot
      resolves the whole key exactly when the write and close were whole; with
      nothing kept it refuses, and otherwise it resolves the cut text. */
  lemma AfterACreatingBoot(trim: Trimmer, first: Boot, second: Boot)
    requires Creates(trim, first) && Clean(trim, second)
    ensures var key := HexEncode(first.entropy.value);
            var whole := (first.writeWorks && first.closeWorks) || first.kept >= 64;
            var r := BootStep(trim, BootStep(trim, Absent, first).file, second).resolved;
            && (whole <==> r == Ok(Resolution(key, FromPersisted)))
            && (!whole && first.kept == 0 ==> r == Err(EmptyKeyFile))
            && (!whole && first.kept > 0 ==> r == Ok(Resolution(key[..first.kept], FromPersisted)))
  {
  }

  // ---------------------------------------------------- The command line's reader

  const KeyVariable := "IDENTUUM_IDP_ENCRYPTION_KEY"
  const CompatVariable := "AUTH_SERVICE_ENCRYPTION_KEY"
  const DataDirVariable := "IDENTUUM_IDP_DATA_DIR"

  datatype CliSource = Env | EnvCompat | InKeyFile | NoKey

  function KeyPath(trim: Trimmer, getenv: string -> string): string {
    var dir := trim(getenv(DataDirVariable));
    (if dir == "" then "/app/data" else dir) + "/encryption-key"
  }

  /** `resolveAtRestKey`. */
  function ResolveAtRestKey(trim: Trimmer, getenv: string -> string, readFile: string -> ReadResult): (r: (string, CliSource))
    ensures r.1 == NoKey <==> r.0 == ""
  {
    var v := trim(getenv(KeyVariable));
    if v != "" then (v, Env)
    else
      var compat := trim(getenv(CompatVariable));
      if compat != "" then (compat, EnvCompat)
      else
        match readFile(KeyPath(trim, getenv))
        case Content(text) => if trim(text) != "" then (trim(text), InKeyFile) else ("", NoKey)
        case _ => ("", NoKey)
  }

  lemma {:induction false} KeyLasts(trim: Trimmer, file: KeyFile, boots: seq<Boot>, i: nat)
    requires i < |boots| && Unaided(trim, boots[i]) && At(trim, file, boots, i).resolved.Ok?
    ensures KeyIn(trim, FileAfter(trim, file, boots)) == Some(At(trim, file, boots, i).resolved.value.key)
    decreases i
  {
    var next := BootStep(trim, file, boots[0]).file;
    if i == 0 {
      SuccessIsPersisted(trim, file, boots[0]);
      FileSettles(trim, next, boots[1..]);
    } else {
      KeyLasts(trim, next, boots[1..], i - 1);
    }
  }

  /** After any run, the command line under the environment of any of its
      successful boots reads that boot's key, exactly when the compatibility
      variable does not get in between: the boot never consults it. */
  lemma CommandLineAgrees(trim: Trimmer, file: KeyFile, boots: seq<Boot>, i: nat,
                          getenv: string -> string, readFile: string -> ReadResult)
    requires i < |boots| && At(trim, file, boots, i).resolved.Ok?
    requires getenv(KeyVariable) == boots[i].operatorKey
    requires readFile(KeyPath(trim, getenv)) == ReadThrough(FileAfter(trim, file, boots))
    ensures var k := At(trim, file, boots, i).resolved.value.key;
            var compat := trim(getenv(CompatVariable));
            && (ResolveAtRestKey(trim, getenv, readFile).0 == k
                <==> !Unaided(trim, boots[i]) || compat == "" || compat == k)
            && (Unaided(trim, boots[i]) && compat == "" ==> ResolveAtRestKey(trim, getenv, readFile) == (k, InKeyFile))
  {
    if Unaided(trim, boots[i]) {
      KeyLasts(trim, file, boots, i);
    } else {
      OperatorBoot(trim, file, boots, i);
    }
  }

  lemma {:induction false} OperatorBoot(trim: Trimmer, file: KeyFile, boots: seq<Boot>, i: nat)
    requires i < |boots| && !Unaided(trim, boots[i])
    ensures At(trim, file, boots, i).resolved == Ok(Resolution(trim(boots[i].operatorKey), FromOperator))
    decreases i
  {
    if i > 0 {
      OperatorBoot(trim, BootStep(trim, file, boots[0]).file, boots[1..], i - 1);
    }
  }

  /** With both variables unset, a clean boot takes a persisted key exactly when
      the command line does and the file is a regular one: the command line also
      reads through a link, which the boot refuses. */
  lemma OneFileTwoReaders(trim: Trimmer, file: KeyFile, b: Boot, k: string,
                          getenv: string -> string, readFile: string -> ReadResult)
    requires Clean(trim, b) && trim(getenv(KeyVariable)) == "" && trim(getenv(CompatVariable)) == ""
    requires readFile(KeyPath(trim, getenv)) == ReadThrough(file)
    ensures BootStep(trim, file, b).resolved == Ok(Resolution(k, FromPersisted))
       <==> ResolveAtRestKey(trim, getenv, readFile) == (k, InKeyFile) && file.Regular?
  {
  }

  /** The compatibility variable does get in between: with it set, the boot
      generates its own key and the command line takes the variable's. */
  lemma CompatVariableDiverts(trim: Trimmer, b: Boot, getenv: string -> string, readFile: string -> ReadResult)
    requires Creates(trim, b) && b.writeWorks && b.closeWorks && b.chownWorks && b.chmodWorks
    requires trim(getenv(KeyVariable)) == "" && getenv(CompatVariable) == "ab"
    requires readFile(KeyPath(trim, getenv)) == ReadThrough(BootStep(trim, Absent, b).file)
    ensures BootStep(trim, Absent, b).resolved == Ok(Resolution(HexEncode(b.entropy.value), Generated))
    ensures ResolveAtRestKey(trim, getenv, readFile) == ("ab", EnvCompat)
    ensures "ab" != HexEncode(b.entropy.value)
  {
    assert IsHexText("ab");
    assert |HexEncode(b.entropy.value)| == 64;
  }

  /** And a link is read by one reader only. */
  lemma LinkDivides(trim: Trimmer, b: Boot, getenv: string -> string, readFile: string -> ReadResult)
    requires Clean(trim, b) && trim(getenv(KeyVariable)) == "" && trim(getenv(CompatVariable)) == ""
    requires readFile(KeyPath(trim, getenv)) == Content("ab")
    ensures BootStep(trim, Special(Content("ab")), b).resolved == Err(NotRegular)
    ensures ResolveAtRestKey(trim, getenv, readFile) == ("ab", InKeyFile)
  {
    assert IsHexText("ab");
  }

  /** Where the command line looks: under the configured directory, or the default. */
  lemma KeyPathExactly(trim: Trimmer, getenv: string -> string)
    ensures trim(getenv("IDENTUUM_IDP_DATA_DIR")) == "" ==> KeyPath(trim, getenv) == "/app/data" + "/encryption-key"
    ensures trim(getenv("IDENTUUM_IDP_DATA_DIR")) != "" ==>
              KeyPath(trim, getenv) == trim(getenv("IDENTUUM_IDP_DATA_DIR")) + "/encryption-key"
  {
  }

  /** Exactly when a boot comes up: with an operator key always; otherwise when the
      path can be read and is no special file the boot noticed, and holds a key, or
      holds nothing and every step of making one succeeds, ownership and mode
      included. */
  lemma BootSucceedsExactly(trim: Trimmer, file: KeyFile, b: Boot)
    ensures BootStep(trim, file, b).resolved.Ok? <==>
              || trim(b.operatorKey) != ""
              || (b.readWorks && !(file.Special? && b.statWorks)
                  && (KeyIn(trim, file).Some?
                      || (file == Absent && b.entropy.Some? && b.createWorks && b.writeWorks && b.closeWorks
                          && b.chownWorks && b.chmodWorks)))
  {
  }
}
