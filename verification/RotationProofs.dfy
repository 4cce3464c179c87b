/** What a finished rotation guarantees about the database it leaves behind. */
module RotationProofs {
  import opened Wrappers
  import opened Primitives
  import opened AtRestCipher
  import opened JsonDocument
  import opened Rotation
  import opened RotationTool
  import opened GuardReach
  import Text

  /** What a reader makes of one stored value of a family. */
  datatype Reading =
    | Secret(text: Result<string, CipherError>)
    | Provider(members: map<string, Result<Json, CipherError>>)
    | Garbled

  function ReadCell(job: Job, fam: Family, read: string -> Result<string, CipherError>, val: string): Reading {
    if fam.json then
      match job.codec.Decode(val)
      case None => Garbled
      case Some(doc) => Provider(OpenDocument(read, doc))
    else Secret(Meaning(read, val, fam.pemOK))
  }

  /** Every sealed text in the value names the new key. */
  predicate NamesNewKey(job: Job, fam: Family, val: string) {
    if fam.json then
      job.codec.Decode(val).Some? &&
      forall f :: f in SealedFields && Sealed(job.codec.Decode(val).value, f) ==>
        job.rot.Current(job.codec.Decode(val).value[f].text)
    else job.rot.Current(val)
  }

  /** One rewritten value: sealed under the new key, read alike by a service that
      no longer has the old one, and never due again. */
  lemma RewrittenValue(job: Job, fam: Family, val: string, next: string)
    requires Faithful(job.codec)
    requires job.Replaces(fam, val, next) && (!fam.json ==> val != "")
    ensures job.Selected(fam, Some(next)) && NamesNewKey(job, fam, next)
    ensures ReadCell(job, fam, job.rot.ReadAlone, next) == ReadCell(job, fam, job.rot.Read, val)
    ensures !job.Stale(fam, next) && job.Rotatable(fam, next)
  {
    if fam.json {
      var doc := job.codec.Decode(val).value;
      var d: Document :| DocReplaces(job.rot, doc, d, SealedFields) && next == job.codec.Encode(d);
      DecodeFits(job.codec, val);
      ReplacedFits(job.rot, job.codec.scale, doc, d);
      EncodeDecodes(job.codec, d);
      DocKeepsMeaning(job.rot, doc, d);
      forall f | f in SealedFields && Sealed(d, f)
        ensures job.rot.Current(d[f].text)
      {
        DocMember(job.rot, doc, d, f);
      }
    } else {
      var nonce :| job.rot.RotateCiphertext(val, fam.pemOK, nonce) == Ok((next, true));
      RotationKeepsMeaning(job.rot, val, fam.pemOK, nonce);
    }
  }

  /** A value that was left alone was current, and reads alike too. */
  lemma UntouchedValue(job: Job, fam: Family, val: string)
    requires job.Rotatable(fam, val) && !job.Stale(fam, val) && (!fam.json ==> val != "")
    ensures NamesNewKey(job, fam, val)
    ensures ReadCell(job, fam, job.rot.ReadAlone, val) == ReadCell(job, fam, job.rot.Read, val)
  {
    if fam.json {
      var doc := job.codec.Decode(val).value;
      assert DocReplaces(job.rot, doc, doc, SealedFields) by {
        forall k | k in doc && k in SealedFields
          ensures !FieldStale(job.rot, doc, k)
        {
        }
      }
      DocKeepsMeaning(job.rot, doc, doc);
    } else {
      RotationKeepsMeaning(job.rot, val, fam.pemOK, seq(NonceSize, i => 0));
    }
  }

  /** The whole table after a successful run. */
  lemma RotatedTable(job: Job, fam: Family, fi: nat, before: Table, after: Table, faults: Faults)
    requires Faithful(job.codec)
    requires job.TableRotatable(fam, fi, before, faults)
    requires job.TableRotated(fam, before, after, before.Keys)
    ensures job.SelectedKeys(fam, after) == job.SelectedKeys(fam, before)
    ensures forall k :: k in job.SelectedKeys(fam, before) ==>
              && NamesNewKey(job, fam, after[k].value)
              && ReadCell(job, fam, job.rot.ReadAlone, after[k].value) == ReadCell(job, fam, job.rot.Read, before[k].value)
              && job.Rotatable(fam, after[k].value) && !job.Stale(fam, after[k].value)
    ensures forall k :: k in before && k !in job.StaleKeys(fam, before) ==> after[k] == before[k]
  {
    forall k | k in job.SelectedKeys(fam, before)
      ensures k in after && job.Selected(fam, after[k])
      ensures NamesNewKey(job, fam, after[k].value)
      ensures ReadCell(job, fam, job.rot.ReadAlone, after[k].value) == ReadCell(job, fam, job.rot.Read, before[k].value)
      ensures job.Rotatable(fam, after[k].value) && !job.Stale(fam, after[k].value)
    {
      assert job.RowRotatable(fam, fi, k, before[k].value, faults);
      if job.SelectedStale(fam, before[k]) {
        RewrittenValue(job, fam, before[k].value, after[k].value);
      } else {
        UntouchedValue(job, fam, before[k].value);
      }
    }
  }

  /** Retired: after a successful run, in every family, every sealed value names
      the new key, and a service holding only that key reads exactly what the
      two-key service read before (failures included). */
  lemma RotationRetiresOldKey(job: Job, before: Store, after: Store, faults: Faults, f: nat, k: string)
    requires Faithful(job.codec) && |before| == |SealedFamilies|
    requires StoreRotatable(job, before, faults) && StoreRotated(job, before, after)
    requires f < |before| && k in before[f] && before[f][k].Some? && (SealedFamilies[f].json || before[f][k].value != "")
    ensures k in after[f] && after[f][k].Some?
    ensures NamesNewKey(job, SealedFamilies[f], after[f][k].value)
    ensures ReadCell(job, SealedFamilies[f], job.rot.ReadAlone, after[f][k].value)
         == ReadCell(job, SealedFamilies[f], job.rot.Read, before[f][k].value)
    ensures !job.Stale(SealedFamilies[f], before[f][k].value) ==> after[f][k] == before[f][k]
  {
    RotatedTable(job, SealedFamilies[f], f, before[f], after[f], faults);
    assert k in job.SelectedKeys(SealedFamilies[f], before[f]);
  }

  /** Convergent: a second run succeeds whatever it cannot write, converts no
      row and leaves the store identical. */
  lemma SecondRunIsIdle(job: Job, before: Store, after: Store, again: Store, faults: Faults, later: Faults)
    requires Faithful(job.codec) && |before| == |SealedFamilies|
    requires StoreRotatable(job, before, faults) && StoreRotated(job, before, after)
    ensures (forall f :: 0 <= f < |after| ==> !later.read(f)) ==> StoreRotatable(job, after, later)
    ensures forall f :: 0 <= f < |after| ==> job.StaleKeys(SealedFamilies[f], after[f]) == {}
    ensures StoreRotated(job, after, again) ==> again == after
  {
    forall f | 0 <= f < |after|
      ensures job.StaleKeys(SealedFamilies[f], after[f]) == {}
      ensures job.TableRotatable(SealedFamilies[f], f, after[f], later)
      ensures StoreRotated(job, after, again) ==> again[f] == after[f]
    {
      var fam := SealedFamilies[f];
      RotatedTable(job, fam, f, before[f], after[f], faults);
      assert forall k :: k in after[f] ==> !job.SelectedStale(fam, after[f][k]) by {
        forall k | k in after[f] && job.Selected(fam, after[f][k])
          ensures !job.Stale(fam, after[f][k].value)
        {
          assert k in job.SelectedKeys(fam, after[f]);
        }
      }
      if StoreRotated(job, after, again) {
        IdleTable(job, fam, after[f], again[f]);
      }
    }
  }

  lemma IdleTable(job: Job, fam: Family, t: Table, t': Table)
    requires forall k :: k in t ==> !job.SelectedStale(fam, t[k])
    requires job.TableRotated(fam, t, t', t.Keys)
    ensures t' == t
  {
  }

  /** In a provider row that the run could rotate, the stored members that were not
      due are unchanged if and only if nothing was due or every number in the
      document survives a float64. */
  lemma ProviderMembersKeptExactly(job: Job, before: Store, after: Store, faults: Faults, f: nat, k: string)
    requires Faithful(job.codec) && |before| == |SealedFamilies|
    requires StoreRotatable(job, before, faults) && StoreRotated(job, before, after)
    requires f < |before| && SealedFamilies[f].json && k in before[f] && before[f][k].Some?
    ensures k in after[f] && after[f][k].Some?
    ensures var stored, kept := job.codec.parse(before[f][k].value), job.codec.parse(after[f][k].value);
            && stored.Some? && kept.Some?
            && (OthersUnchanged(job.rot, stored.value, kept.value)
                <==> !DocStale(job.rot, stored.value) || AllInDoc(stored.value, job.codec.scale.Survives))
  {
    var fam := SealedFamilies[f];
    assert k in job.SelectedKeys(fam, before[f]);
    assert job.RowRotatable(fam, f, k, before[f][k].value, faults);
    assert job.CellRotated(fam, before[f][k], after[f][k]);
    StoredMembersKeptExactly(job.rot, job.codec, before[f][k].value, after[f][k].value);
  }

  /** A number beyond the range of a float64 anywhere in a provider document stops
      every rotation of the database, even if nothing in that document is stale. */
  lemma HugeNumberStopsRotation(job: Job, tables: Store, schema: seq<Column>, faults: Faults, f: nat, k: string)
    requires |tables| == |SealedFamilies| && f < |tables| && SealedFamilies[f].json
    requires k in tables[f] && tables[f][k].Some?
    requires var stored := job.codec.parse(tables[f][k].value); stored.Some? && !AllInDoc(stored.value, job.codec.scale.InRange)
    ensures !Unobstructed(job, tables, schema, faults)
  {
    assert k in job.SelectedKeys(SealedFamilies[f], tables[f]);
    assert !job.RowRotatable(SealedFamilies[f], f, k, tables[f][k].value, faults);
  }

  // ------------------------------------------------- The retired key afterwards

  /** The retired key on its own opens `v`. */
  predicate RetiredOpens(rot: Rotor, v: string) {
    DecryptIn(rot.prims, Alone(rot.prims, rot.oldKey), v, []).Ok?
  }

  /** It does not open a value that names the new key. */
  lemma CurrentIsClosed(rot: Rotor, v: string)
    requires rot.NewId() != rot.OldId() && rot.Current(v)
    ensures !RetiredOpens(rot, v)
  {
    CurrentPieces(rot, v);
    var ring := Alone(rot.prims, rot.oldKey);
    var body := rot.NewId() + ":" + v[20..];
    Text.IndexOfFirst(rot.NewId(), v[20..], ':');
    assert body[..16] == rot.NewId() && Lookup(ring, rot.NewId()).None?;
    RouteV2(rot.prims, ring, body, []);
  }

  /** Closed: after a successful run the retired key opens no value of a text
      family and no sealed field of a provider document. */
  lemma RetiredKeyOpensNoFamilyValue(job: Job, before: Store, after: Store, faults: Faults, f: nat, k: string)
    requires Faithful(job.codec) && |before| == |SealedFamilies| && job.rot.NewId() != job.rot.OldId()
    requires StoreRotatable(job, before, faults) && StoreRotated(job, before, after)
    requires f < |before| && k in before[f] && before[f][k].Some? && (SealedFamilies[f].json || before[f][k].value != "")
    ensures k in after[f] && after[f][k].Some?
    ensures !SealedFamilies[f].json ==> !RetiredOpens(job.rot, after[f][k].value)
    ensures SealedFamilies[f].json ==>
              var doc := job.codec.Decode(after[f][k].value);
              doc.Some? && forall field :: field in SealedFields && Sealed(doc.value, field)
                                           ==> !RetiredOpens(job.rot, doc.value[field].text)
  {
    RotationRetiresOldKey(job, before, after, faults, f, k);
    var v := after[f][k].value;
    if SealedFamilies[f].json {
      var doc := job.codec.Decode(v).value;
      forall field | field in SealedFields && Sealed(doc, field)
        ensures !RetiredOpens(job.rot, doc[field].text)
      {
        CurrentIsClosed(job.rot, doc[field].text);
      }
    } else {
      CurrentIsClosed(job.rot, v);
    }
  }

  /** What the retired key may still open elsewhere. After exit code 0 a value of
      an unknown text column that it opens has no version prefix, or is a version-1
      text with a line end in it; and a text it opens that stands in an unknown
      document, spelled without escapes, is not a version-2 text. */
  lemma WhatTheRetiredKeyStillOpens(job: Job, tables: Store, schema: seq<Column>, faults: Faults, c: Column, i: nat)
    requires |tables| == |SealedFamilies| && Unobstructed(job, tables, schema, faults)
    requires c in schema && !IsFamilyColumn(c) && i < |c.values|
    ensures !c.json && RetiredOpens(job.rot, c.values[i]) ==> !Recognisable(c.values[i])
    ensures c.json ==> forall pre, v, post :: RetiredOpens(job.rot, v) && c.values[i] == Quoted(pre, v, post) ==> !("v2:" <= v)
  {
    var p, ring := job.rot.prims, Alone(job.rot.prims, job.rot.oldKey);
    assert !Hit(c) && !LooksSealed(c, c.values[i]);
    if !c.json && RetiredOpens(job.rot, c.values[i]) {
      TextReachExactly(p, ring, [], c, c.values[i]);
    }
    if c.json {
      forall pre, v, post | RetiredOpens(job.rot, v) && c.values[i] == Quoted(pre, v, post)
        ensures !("v2:" <= v)
      {
        QuotedMatch(pre, v, post);
        JsonReachExactly(p, ring, [], v, "\"" + post);
      }
    }
  }

  /** The guard's pattern looks right behind every quote. */
  lemma QuotedMatch(pre: string, v: string, post: string)
    ensures V2Shaped(v + ("\"" + post)) ==> EmbedsV2(Quoted(pre, v, post))
  {
    var text := Quoted(pre, v, post);
    assert text[|pre|] == '"' && text[|pre| + 1..] == v + ("\"" + post);
  }

  /** The text `v` between quotes in a document. */
  function Quoted(pre: string, v: string, post: string): string {
    pre + "\"" + v + "\"" + post
  }

  /** Some service reads the value. */
  ghost predicate ReadBySome(p: Crypto, v: string) {
    exists ring: Keyring, order: seq<string> ::
      WellFormed(p, ring) && Enumerates(order, ring.previous.Keys) && Reads(p, ring, order, v)
  }

  lemma HitExactly(p: Crypto, c: Column)
    requires !c.json && forall i :: 0 <= i < |c.values| ==> ReadBySome(p, c.values[i])
    ensures Hit(c) <==> exists i :: 0 <= i < |c.values| && Recognisable(c.values[i])
  {
    forall i | 0 <= i < |c.values|
      ensures LooksSealed(c, c.values[i]) <==> Recognisable(c.values[i])
    {
      var ring: Keyring, order: seq<string> :|
        WellFormed(p, ring) && Enumerates(order, ring.previous.Keys) && Reads(p, ring, order, c.values[i]);
      TextReachExactly(p, ring, order, c, c.values[i]);
    }
  }

  /** And those values do not stand in the way: one more unknown text column, of
      values each of which some service reads, stops a run that nothing else stops
      if and only if one of them is recognisable. */
  lemma MissedValuesPass(job: Job, tables: Store, schema: seq<Column>, faults: Faults, p: Crypto, c: Column)
    requires |tables| == |SealedFamilies| && !IsFamilyColumn(c)
    requires !c.json && forall i :: 0 <= i < |c.values| ==> ReadBySome(p, c.values[i])
    ensures Unobstructed(job, tables, schema + [c], faults)
       <==> Unobstructed(job, tables, schema, faults) && forall i :: 0 <= i < |c.values| ==> !Recognisable(c.values[i])
  {
    HitExactly(p, c);
    assert forall d :: d in schema + [c] <==> d in schema || d == c;
  }
}
