/** createTssRequest (fwstitcher.c:69-200) on values: the checks on the
    build manifest, in the order the code makes them, the ten fixed entries
    of the signing request, and the move of the identity's `Manifest`
    entries to the end of the request. The in-place link updates of the
    move are modelled on an arena in module PlistArena; this module states
    what the two lists are afterwards. */
module TssRequest {
  import opened Wrappers
  import opened PlistValue
  import Numerals

  /** The build manifest as the archive yields it (fwstitcher.c:77-88). */
  datatype ManifestFile = Absent | Unparsable | Parsed(root: seq<Entry>)

  /** Each way createTssRequest returns NULL, in the order of its checks. */
  datatype Error =
    | ManifestMissing
    | ManifestUnreadable
    | NoBuildIdentities
    | NoRestoreIdentity
    | NoUniqueBuildId
    | NoChipId
    | NoBoardId
    | NoSecurityDomain
    | NoManifest

  /** The request's entries, and the identity as the move leaves it. */
  datatype Built = Built(request: seq<Entry>, identity: seq<Entry>)

  /** The first restore identity: element 0 of `BuildIdentities`
      (fwstitcher.c:91-101). */
  function Identity(root: seq<Entry>): (r: Option<seq<Entry>>)
    ensures r.Some? ==> exists items :: Lookup(root, "BuildIdentities") == Some(Array(items))
                                         && items != [] && items[0] == Dict(r.value)
    ensures (exists items: seq<Value> :: Lookup(root, "BuildIdentities") == Some(Array(items))
                             && items != [] && items[0].Dict?) ==> r.Some?
  {
    match Lookup(root, "BuildIdentities")
    case Some(Array(items)) =>
      if items != [] && items[0].Dict? then Some(items[0].entries) else None
    case _ => None
  }

  function StringField(es: seq<Entry>, k: string): (r: Option<string>)
    ensures r.Some? <==> Lookup(es, k).Some? && Lookup(es, k).value.Str?
    ensures r.Some? ==> Lookup(es, k) == Some(Str(r.value))
  {
    match Lookup(es, k)
    case Some(Str(s)) => Some(s)
    case _ => None
  }

  function DataField(es: seq<Entry>, k: string): (r: Option<seq<char>>)
    ensures r.Some? <==> Lookup(es, k).Some? && Lookup(es, k).value.Data?
    ensures r.Some? ==> Lookup(es, k) == Some(Data(r.value))
  {
    match Lookup(es, k)
    case Some(Data(d)) => Some(d)
    case _ => None
  }

  function DictField(es: seq<Entry>, k: string): (r: Option<seq<Entry>>)
    ensures r.Some? <==> Lookup(es, k).Some? && Lookup(es, k).value.Dict?
    ensures r.Some? ==> Lookup(es, k) == Some(Dict(r.value))
  {
    match Lookup(es, k)
    case Some(Dict(d)) => Some(d)
    case _ => None
  }

  /** Whether the check that reports `e` fails on this manifest, given that
      the checks before it passed. */
  ghost predicate Missing(file: ManifestFile, e: Error)
  {
    match e
    case ManifestMissing => file.Absent?
    case ManifestUnreadable => file.Unparsable?
    case NoBuildIdentities =>
      file.Parsed? && !(Lookup(file.root, "BuildIdentities").Some? &&
                        Lookup(file.root, "BuildIdentities").value.Array?)
    case NoRestoreIdentity => file.Parsed? && Identity(file.root).None?
    case NoUniqueBuildId =>
      file.Parsed? && Identity(file.root).Some? && DataField(Identity(file.root).value, "UniqueBuildID").None?
    case NoChipId =>
      file.Parsed? && Identity(file.root).Some? && StringField(Identity(file.root).value, "ApChipID").None?
    case NoBoardId =>
      file.Parsed? && Identity(file.root).Some? && StringField(Identity(file.root).value, "ApBoardID").None?
    case NoSecurityDomain =>
      file.Parsed? && Identity(file.root).Some? && StringField(Identity(file.root).value, "ApSecurityDomain").None?
    case NoManifest =>
      file.Parsed? && Identity(file.root).Some? && DictField(Identity(file.root).value, "Manifest").None?
  }

  /** The position of each check in createTssRequest. */
  function Rank(e: Error): (n: nat)
    ensures n < 9
  {
    match e
    case ManifestMissing => 0
    case ManifestUnreadable => 1
    case NoBuildIdentities => 2
    case NoRestoreIdentity => 3
    case NoUniqueBuildId => 4
    case NoChipId => 5
    case NoBoardId => 6
    case NoSecurityDomain => 7
    case NoManifest => 8
  }

  /** A manifest with every value createTssRequest reads. */
  ghost predicate Complete(file: ManifestFile)
  {
    forall e :: !Missing(file, e)
  }

  /** The ten entries the request starts with (fwstitcher.c:147-157). */
  function FixedEntries(ecid: string, chip: int, board: int, security: int, buildId: seq<char>): (r: seq<Entry>)
    ensures |r| == 10
    ensures Keys(r) == ["@HostIpAddress", "@HostPlatformInfo", "@VersionInfo", "@Locality",
                        "ApProductionMode", "ApECID", "ApChipID", "ApBoardID",
                        "ApSecurityDomain", "UniqueBuildID"]
  {
    [ Entry("@HostIpAddress", Str("192.168.0.1")),
      Entry("@HostPlatformInfo", Str("darwin")),
      Entry("@VersionInfo", Str("3.8")),
      Entry("@Locality", Str("en_US")),
      Entry("ApProductionMode", Bool(true)),
      Entry("ApECID", Str(ecid)),
      Entry("ApChipID", Integer(chip)),
      Entry("ApBoardID", Integer(board)),
      Entry("ApSecurityDomain", Integer(security)),
      Entry("UniqueBuildID", Data(buildId)) ]
  }

  /** createTssRequest: NULL at the first check that fails; otherwise the
      ten fixed entries followed by the identity's `Manifest` entries, and
      the identity without its `Manifest` entry. */
  function CreateTssRequest(file: ManifestFile, ecidText: string): (r: Result<Built, Error>)
    ensures r.Failure? ==> Missing(file, r.error)
    ensures r.Failure? ==> forall e :: Rank(e) < Rank(r.error) ==> !Missing(file, e)
  {
    match file
    case Absent => Failure(ManifestMissing)
    case Unparsable => Failure(ManifestUnreadable)
    case Parsed(root) =>
      if !(Lookup(root, "BuildIdentities").Some? && Lookup(root, "BuildIdentities").value.Array?)
      then Failure(NoBuildIdentities)
      else match Identity(root)
      case None => Failure(NoRestoreIdentity)
      case Some(identity) =>
        match DataField(identity, "UniqueBuildID")
        case None => Failure(NoUniqueBuildId)
        case Some(buildId) =>
          match StringField(identity, "ApChipID")
          case None => Failure(NoChipId)
          case Some(chip) =>
            match StringField(identity, "ApBoardID")
            case None => Failure(NoBoardId)
            case Some(board) =>
              match StringField(identity, "ApSecurityDomain")
              case None => Failure(NoSecurityDomain)
              case Some(security) =>
                match DictField(identity, "Manifest")
                case None => Failure(NoManifest)
                case Some(manifest) =>
                  var fixed := FixedEntries(Numerals.EcidString(ecidText), Numerals.HexField(chip),
                                            Numerals.HexField(board), Numerals.HexField(security), buildId);
                  Success(Built(fixed + manifest, RemoveAt(identity, FirstIndex(identity, "Manifest").value)))
  }

  /** Whether the move as written (fwstitcher.c:175-186) dereferences NULL
      on this manifest: its `Manifest` dictionary is empty, so `firmware`
      is NULL at :175; or its entry is the identity's first, with no `prev`
      for :185; or its last, with no `next` for :186. These are the
      conditions on which PlistArena.Plist.RelocateAsWritten faults.
      CreateTssRequest models the corrected move and builds a request in
      these cases too. */
  predicate MoveFaults(file: ManifestFile)
  {
    file.Parsed? && Identity(file.root).Some? &&
    var identity := Identity(file.root).value;
    match DictField(identity, "Manifest")
    case None => false
    case Some(manifest) =>
      var i := FirstIndex(identity, "Manifest").value;
      manifest == [] || i == 0 || i == |identity| - 1
  }

  /** A request is built exactly when the manifest holds every value the
      code reads; no request is built (and none sent) otherwise. */
  lemma SucceedsIffComplete(file: ManifestFile, ecidText: string)
    ensures CreateTssRequest(file, ecidText).Success? <==> Complete(file)
  {
    var r := CreateTssRequest(file, ecidText);
    if r.Success? {
      forall e ensures !Missing(file, e) {
        IdentityHasArray(file);
      }
    }
  }

  lemma IdentityHasArray(file: ManifestFile)
    requires file.Parsed? && Identity(file.root).Some?
    ensures Lookup(file.root, "BuildIdentities").Some? && Lookup(file.root, "BuildIdentities").value.Array?
  {
  }

  /** On success the request holds, in order, the ten fixed entries with the
      converted ECID and hex fields, then the `Manifest` entries in their
      original order; the identity has lost its first `Manifest` entry and
      keeps every other entry in order. */
  lemma RequestLayout(file: ManifestFile, ecidText: string)
    requires Complete(file)
    ensures var r := CreateTssRequest(file, ecidText);
            var identity := Identity(file.root).value;
            var i := FirstIndex(identity, "Manifest").value;
            r.Success? &&
            |r.value.request| == 10 + |DictField(identity, "Manifest").value| &&
            r.value.request[..10] == FixedEntries(
              Numerals.EcidString(ecidText),
              Numerals.HexField(StringField(identity, "ApChipID").value),
              Numerals.HexField(StringField(identity, "ApBoardID").value),
              Numerals.HexField(StringField(identity, "ApSecurityDomain").value),
              DataField(identity, "UniqueBuildID").value) &&
            r.value.request[10..] == DictField(identity, "Manifest").value &&
            identity[i] == Entry("Manifest", Dict(DictField(identity, "Manifest").value)) &&
            r.value.identity == identity[..i] + identity[i + 1..]
  {
    SucceedsIffComplete(file, ecidText);
    assert !Missing(file, NoManifest);
  }

  /** A restore identity whose `Manifest` entry, holding `firmware`,
      comes first. */
  function ManifestFirst(firmware: seq<Entry>): (identity: seq<Entry>)
    ensures |identity| == 5 && identity[0] == Entry("Manifest", Dict(firmware))
  {
    [Entry("Manifest", Dict(firmware)), Entry("UniqueBuildID", Data("id")),
     Entry("ApChipID", Str("0x8920")), Entry("ApBoardID", Str("0x0")),
     Entry("ApSecurityDomain", Str("0x1"))]
  }

  lemma ManifestFirstLeading(firmware: seq<Entry>)
    ensures var identity := ManifestFirst(firmware);
            FirstIndex(identity, "Manifest") == Some(0) && DictField(identity, "Manifest") == Some(firmware) &&
            DataField(identity, "UniqueBuildID").Some? && StringField(identity, "ApChipID").Some?
  {
    var identity := ManifestFirst(firmware);
    FoundAt(identity, "Manifest", 0);
    assert identity[0].key[0] != "UniqueBuildID"[0];
    FoundAt(identity, "UniqueBuildID", 1);
    assert identity[0].key[0] != "ApChipID"[0] && identity[1].key[0] != "ApChipID"[0];
    FoundAt(identity, "ApChipID", 2);
  }

  lemma ManifestFirstTrailing(firmware: seq<Entry>)
    ensures var identity := ManifestFirst(firmware);
            StringField(identity, "ApBoardID").Some? && StringField(identity, "ApSecurityDomain").Some?
  {
    var identity := ManifestFirst(firmware);
    assert identity[0].key[0] != "ApBoardID"[0] && identity[1].key[0] != "ApBoardID"[0];
    assert identity[2].key[2] != "ApBoardID"[2];
    FoundAt(identity, "ApBoardID", 3);
    assert identity[0].key[0] != "ApSecurityDomain"[0] && identity[1].key[0] != "ApSecurityDomain"[0];
    assert identity[2].key[2] != "ApSecurityDomain"[2] && identity[3].key[2] != "ApSecurityDomain"[2];
    FoundAt(identity, "ApSecurityDomain", 4);
  }

  /** A complete manifest on which the code as written faults: the
      identity's `Manifest` entry comes first, so :185 writes through the
      NULL `prev` of the first entry. */
  lemma ManifestFirstFaults(firmware: seq<Entry>)
    ensures var file := Parsed([Entry("BuildIdentities", Array([Dict(ManifestFirst(firmware))]))]);
            Complete(file) && MoveFaults(file)
  {
    var identity := ManifestFirst(firmware);
    var file := Parsed([Entry("BuildIdentities", Array([Dict(identity)]))]);
    FoundAt(file.root, "BuildIdentities", 0);
    assert Identity(file.root) == Some(identity);
    ManifestFirstLeading(firmware);
    ManifestFirstTrailing(firmware);
    CompleteWhenFound(file);
  }

  /** A parsed manifest whose restore identity holds every field is
      complete. */
  lemma CompleteWhenFound(file: ManifestFile)
    requires file.Parsed? && Identity(file.root).Some?
    requires var identity := Identity(file.root).value;
             DataField(identity, "UniqueBuildID").Some? && StringField(identity, "ApChipID").Some? &&
             StringField(identity, "ApBoardID").Some? && StringField(identity, "ApSecurityDomain").Some? &&
             DictField(identity, "Manifest").Some?
    ensures Complete(file)
  {
    IdentityHasArray(file);
  }
}
