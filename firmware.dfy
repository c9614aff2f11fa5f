/** What main (fwstitcher.c:44-64) and createTssFirmware
    (fwstitcher.c:253-322) decide from the TSS reply: whether signing
    succeeded, where the XML document starts, which response entries carry a
    signature to stitch, and the signature text once tabs and newlines are
    deleted from it. */
module Firmware {
  import opened Wrappers
  import opened CString
  import opened PlistValue
  import TssRequest

  const SuccessMarker: string := "MESSAGE=SUCCESS"
  const XmlMarker: string := "<?xml"

  /** The gate in main (fwstitcher.c:52): the reply mentions
      MESSAGE=SUCCESS somewhere before its terminating NUL. */
  function SigningSucceeded(content: seq<char>): (ok: bool)
    requires NUL in content
    ensures ok <==> exists j :: OccursAt(CStr(content), SuccessMarker, j)
  {
    StrStr(content, SuccessMarker).Some?
  }

  /** fwstitcher.c:254-258: the XML document is the reply from the first
      `<?xml` on; without one there is nothing to stitch. */
  function XmlDocument(content: seq<char>): (r: Option<seq<char>>)
    requires NUL in content
    ensures r.None? <==> forall j :: !OccursAt(CStr(content), XmlMarker, j)
    ensures r.Some? ==>
              exists i: nat :: OccursAt(CStr(content), XmlMarker, i) && r.value == CStr(content)[i..] &&
                          forall j :: 0 <= j < i ==> !OccursAt(CStr(content), XmlMarker, j)
  {
    match StrStr(content, XmlMarker)
    case None => None
    case Some(i) => Some(CStr(content)[i..])
  }

  /** A signature to stitch: the entry's key, its Path and its Blob. */
  datatype Signed = Signed(name: string, path: string, blob: string)

  /** fwstitcher.c:276-287: an entry is used when it is a dictionary holding
      both a Path and a Blob. */
  predicate Eligible(e: Entry)
    ensures Eligible(e) <==> e.value.Dict? &&
                             (exists p :: Lookup(e.value.entries, "Path") == Some(Str(p))) &&
                             (exists b :: Lookup(e.value.entries, "Blob") == Some(Str(b)))
  {
    e.value.Dict? && TssRequest.StringField(e.value.entries, "Path").Some? &&
    TssRequest.StringField(e.value.entries, "Blob").Some?
  }

  function Pick(e: Entry): (s: Signed)
    requires Eligible(e)
    ensures s.name == e.key
    ensures Lookup(e.value.entries, "Path") == Some(Str(s.path))
    ensures Lookup(e.value.entries, "Blob") == Some(Str(s.blob))
  {
    Signed(e.key, TssRequest.StringField(e.value.entries, "Path").value,
           TssRequest.StringField(e.value.entries, "Blob").value)
  }

  /** The signatures of the eligible entries, in the order of the reply. */
  function Selected(es: seq<Entry>): (r: seq<Signed>)
    ensures |r| <= |es|
    ensures (forall i :: 0 <= i < |es| ==> Eligible(es[i])) ==> |r| == |es|
  {
    if es == [] then []
    else Selected(es[..|es| - 1]) + (if Eligible(es[|es| - 1]) then [Pick(es[|es| - 1])] else [])
  }

  /** The walk over the response's entries (fwstitcher.c:271-320): entries
      that are not dictionaries, or lack Path or Blob, are skipped; every
      other entry yields its signature, in the order of the list. */
  method SelectEntries(es: seq<Entry>) returns (picked: seq<Signed>)
    ensures picked == Selected(es)
    ensures forall s :: s in picked <==> exists i :: 0 <= i < |es| && Eligible(es[i]) && Pick(es[i]) == s
  {
    picked := [];
    var i := 0;
    while i < |es|
      invariant 0 <= i <= |es| && picked == Selected(es[..i])
    {
      assert es[..i + 1][..i] == es[..i];
      if Eligible(es[i]) {
        picked := picked + [Pick(es[i])];
      }
      i := i + 1;
    }
    assert es[..i] == es;
    SelectedMembers(es);
  }

  /** Every selected signature comes from an eligible entry. */
  lemma {:induction false} SelectedSound(es: seq<Entry>, s: Signed)
    requires s in Selected(es)
    ensures exists i :: 0 <= i < |es| && Eligible(es[i]) && Pick(es[i]) == s
  {
    var init, last := es[..|es| - 1], es[|es| - 1];
    assert Selected(es) == Selected(init) + (if Eligible(last) then [Pick(last)] else []);
    if s in Selected(init) {
      SelectedSound(init, s);
      var i :| 0 <= i < |init| && Eligible(init[i]) && Pick(init[i]) == s;
      assert es[i] == init[i];
    } else {
      assert Eligible(last) && Pick(last) == s;
    }
  }

  /** Every eligible entry's signature is selected. */
  lemma {:induction false} SelectedComplete(es: seq<Entry>, i: nat)
    requires i < |es| && Eligible(es[i])
    ensures Pick(es[i]) in Selected(es)
  {
    var init := es[..|es| - 1];
    if i < |init| {
      assert init[i] == es[i];
      SelectedComplete(init, i);
    }
  }

  /** Exactly the eligible entries are selected. */
  lemma SelectedMembers(es: seq<Entry>)
    ensures forall s :: s in Selected(es) <==> exists i :: 0 <= i < |es| && Eligible(es[i]) && Pick(es[i]) == s
  {
    forall s | s in Selected(es) ensures exists i :: 0 <= i < |es| && Eligible(es[i]) && Pick(es[i]) == s {
      SelectedSound(es, s);
    }
    forall i | 0 <= i < |es| && Eligible(es[i]) ensures Pick(es[i]) in Selected(es) {
      SelectedComplete(es, i);
    }
  }

  /** Selection keeps the order of the reply: the signatures of two
      consecutive stretches of entries are those of the first, then those of
      the second. */
  lemma {:induction false} SelectedAppend(a: seq<Entry>, b: seq<Entry>)
    ensures Selected(a + b) == Selected(a) + Selected(b)
  {
    if b == [] {
      assert a + b == a;
    } else {
      var b' := b[..|b| - 1];
      assert (a + b)[..|a + b| - 1] == a + b';
      SelectedAppend(a, b');
    }
  }

  /** The blob after the two delchar calls (fwstitcher.c:294-295), as
      base64_decode_alloc reads it. */
  function Cleaned(blob: string): (r: string)
    ensures |r| <= |blob| && '\t' !in r && '\n' !in r
    ensures multiset(r) == multiset(blob)['\t' := 0]['\n' := 0]
  {
    RemoveOnlyFrom(blob, '\t');
    RemoveOnlyFrom(Remove(blob, '\t'), '\n');
    RemoveKeepsOthers(blob, '\t');
    RemoveKeepsOthers(Remove(blob, '\t'), '\n');
    Remove(Remove(blob, '\t'), '\n')
  }

  /** The order of the two delchar calls does not matter: deleting
      newlines first leaves the same blob. */
  lemma CleanedEitherOrder(blob: string)
    ensures Cleaned(blob) == Remove(Remove(blob, '\n'), '\t')
  {
    RemoveCommutes(blob, '\t', '\n');
  }

  /** The two delchar calls on the blob's buffer: the string it holds is the
      blob without tabs and newlines, and the buffer keeps its size. */
  method StripBlob(a: array<char>)
    requires NUL in a[..]
    modifies a
    ensures NUL in a[..] && CStr(a[..]) == Cleaned(CStr(old(a[..])))
  {
    ghost var s := a[..];
    DelChar(a, '\t');
    DeletedString(s, '\t');
    ghost var s' := a[..];
    DelChar(a, '\n');
    DeletedString(s', '\n');
  }

  /** How one run of the program ends (fwstitcher.c:44-64 and 253-264).
      `Faulted` is the NULL dereference of the Manifest move as written
      (fwstitcher.c:175-186); `UnterminatedReply` is a reply buffer that
      holds no NUL, which strstr at :52 reads past. */
  datatype Outcome =
    | NotRequested(error: TssRequest.Error)
    | Faulted
    | NoResponse
    | UnterminatedReply
    | Refused
    | NoXml
    | Stitch(xml: seq<char>)

  /** main, given the manifest, the ECID argument and the reply buffer that
      sendTssRequest returns (None for NULL). A manifest that fails a check
      sends no request, and one on which the Manifest move dereferences
      NULL ends the program there. Otherwise no reply, a reply buffer with
      no terminator, a reply without MESSAGE=SUCCESS, or one without XML
      stop the run; the XML document of any other reply goes on to be
      stitched. */
  function Run(file: TssRequest.ManifestFile, ecidText: string, reply: Option<seq<char>>): (r: Outcome)
    ensures r.NotRequested? <==> !TssRequest.Complete(file)
    ensures r.NotRequested? ==>
              TssRequest.Missing(file, r.error) &&
              forall e :: TssRequest.Rank(e) < TssRequest.Rank(r.error) ==> !TssRequest.Missing(file, e)
    ensures r.Faulted? <==> TssRequest.Complete(file) && TssRequest.MoveFaults(file)
    ensures r.UnterminatedReply? <==>
              TssRequest.Complete(file) && !TssRequest.MoveFaults(file) && reply.Some? && NUL !in reply.value
    ensures r.NoResponse? <==> TssRequest.Complete(file) && !TssRequest.MoveFaults(file) && reply.None?
    ensures r.Refused? <==>
              TssRequest.Complete(file) && !TssRequest.MoveFaults(file) && reply.Some? && NUL in reply.value &&
              !(exists j :: OccursAt(CStr(reply.value), SuccessMarker, j))
    ensures r.NoXml? <==>
              TssRequest.Complete(file) && !TssRequest.MoveFaults(file) && reply.Some? && NUL in reply.value &&
              (exists j :: OccursAt(CStr(reply.value), SuccessMarker, j)) &&
              !(exists j :: OccursAt(CStr(reply.value), XmlMarker, j))
    ensures r.Stitch? <==>
              TssRequest.Complete(file) && !TssRequest.MoveFaults(file) && reply.Some? && NUL in reply.value &&
              (exists j :: OccursAt(CStr(reply.value), SuccessMarker, j)) &&
              (exists j :: OccursAt(CStr(reply.value), XmlMarker, j))
    ensures r.Stitch? ==> NUL in reply.value && XmlDocument(reply.value) == Some(r.xml)
  {
    TssRequest.SucceedsIffComplete(file, ecidText);
    match TssRequest.CreateTssRequest(file, ecidText)
    case Failure(e) => NotRequested(e)
    case Success(_) =>
      if TssRequest.MoveFaults(file) then Faulted
      else match reply
      case None => NoResponse
      case Some(content) =>
        if NUL !in content then UnterminatedReply
        else if !SigningSucceeded(content) then Refused
        else match XmlDocument(content)
        case None => NoXml
        case Some(xml) => Stitch(xml)
  }

  /** The manifest of TssRequest.ManifestFirstFaults ends every run in the
      fault, whatever the ECID and the reply. */
  lemma ManifestFirstRun(firmware: seq<Entry>, ecidText: string, reply: Option<seq<char>>)
    ensures Run(TssRequest.Parsed([Entry("BuildIdentities", Array([Dict(TssRequest.ManifestFirst(firmware))]))]),
                ecidText, reply) == Faulted
  {
    TssRequest.ManifestFirstFaults(firmware);
  }
}
