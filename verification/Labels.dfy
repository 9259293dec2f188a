/** Labels travel as one text "k=v,k=v,..."; when the receiver can recover them. */
module Labels {
  import opened Wrappers
  import opened Text
  import opened Endpoint

  const COMMA := ','
  const EQUALS := '='

  function Pair(l: ConnectionLabel): string {
    l.key + [EQUALS] + l.value
  }

  function Pairs(labels: seq<ConnectionLabel>): (pairs: seq<string>)
    ensures |pairs| == |labels|
    ensures forall i :: 0 <= i < |labels| ==> pairs[i] == Pair(labels[i])
  {
    seq(|labels|, i requires 0 <= i < |labels| => Pair(labels[i]))
  }

  function Serialized(labels: seq<ConnectionLabel>): string {
    Join(Pairs(labels), COMMA)
  }

  lemma PairsPrefix(labels: seq<ConnectionLabel>, i: nat)
    requires i < |labels|
    ensures Pairs(labels[..i + 1]) == Pairs(labels[..i]) + [Pair(labels[i])]
  {
  }

  /** No text serialised from at least one label is empty, so the separator test of the loop is sound. */
  lemma SerializedNonEmpty(labels: seq<ConnectionLabel>)
    ensures Serialized(labels) == "" <==> labels == []
  {
  }

  /** What the text looks like: a label is its key and value around an equals sign, lists meet at commas. */
  lemma SerializedText(a: seq<ConnectionLabel>, b: seq<ConnectionLabel>, l: ConnectionLabel)
    ensures Serialized([]) == ""
    ensures Serialized([l]) == l.key + "=" + l.value
    ensures a != [] && b != [] ==> Serialized(a + b) == Serialized(a) + "," + Serialized(b)
  {
    assert Pairs([l]) == [Pair(l)];
    assert Pairs(a + b) == Pairs(a) + Pairs(b);
    if a != [] && b != [] {
      JoinConcat(Pairs(a), Pairs(b), COMMA);
    }
  }

  /** The loop that grows the text, against joining all pairs at once. */
  method LabelsFromProto(labels: seq<ConnectionLabel>) returns (labelString: string)
    ensures labelString == Serialized(labels)
  {
    labelString := "";
    for i := 0 to |labels|
      invariant labelString == Serialized(labels[..i])
    {
      ghost var earlier := labels[..i];
      PairsPrefix(labels, i);
      SerializedNonEmpty(earlier);
      if i > 0 {
        JoinConcat(Pairs(earlier), [Pair(labels[i])], COMMA);
      }
      if |labelString| > 0 {
        labelString := labelString + [COMMA];
      }
      labelString := labelString + (labels[i].key + [EQUALS] + labels[i].value);
    }
    assert labels[..|labels|] == labels;
  }

  // ---------- the receiving side ----------

  /** Splitting at commas, and each piece at its one equals sign. */
  function Deserialized(s: string): Option<seq<ConnectionLabel>> {
    FromPieces(Split(s, COMMA))
  }

  function FromPieces(pieces: seq<string>): Option<seq<ConnectionLabel>> {
    if pieces == [] then Some([])
    else
      var kv := Split(pieces[0], EQUALS);
      var rest := FromPieces(pieces[1..]);
      if |kv| == 2 && rest.Some? then Some([ConnectionLabel(kv[0], kv[1])] + rest.value) else None
  }

  predicate Clean(l: ConnectionLabel) {
    && ',' !in l.key && '=' !in l.key
    && ',' !in l.value && '=' !in l.value
  }

  ghost predicate AllClean(labels: seq<ConnectionLabel>) {
    forall i :: 0 <= i < |labels| ==> Clean(labels[i])
  }

  lemma {:induction false} PiecesOfCleanLabels(labels: seq<ConnectionLabel>)
    requires AllClean(labels)
    ensures FromPieces(Pairs(labels)) == Some(labels)
  {
    if labels == [] {
    } else {
      var l := labels[0];
      SplitConcat(l.key, EQUALS, l.value);
      SplitFree(l.key, EQUALS);
      SplitFree(l.value, EQUALS);
      PiecesOfCleanLabels(labels[1..]);
      assert Pairs(labels)[1..] == Pairs(labels[1..]);
      assert [l] + labels[1..] == labels;
    }
  }

  /** Whatever is recovered has neither separator in it. */
  lemma {:induction false} RecoveredAreClean(pieces: seq<string>)
    requires forall i :: 0 <= i < |pieces| ==> Free(pieces[i], COMMA)
    requires FromPieces(pieces).Some?
    ensures |FromPieces(pieces).value| == |pieces|
    ensures forall i :: 0 <= i < |pieces| ==> Clean(FromPieces(pieces).value[i])
  {
    if pieces == [] {
    } else {
      var kv := Split(pieces[0], EQUALS);
      PiecesFree(pieces[0], EQUALS);
      JoinSplit(pieces[0], EQUALS);
      assert Join(kv, EQUALS) == kv[0] + [EQUALS] + kv[1];
      assert forall c :: c in kv[0] || c in kv[1] ==> c in pieces[0];
      RecoveredAreClean(pieces[1..]);
    }
  }

  /** Round trip, for all lists: the labels are recovered if and only if there are some and all are clean. */
  lemma LabelRoundTrip(labels: seq<ConnectionLabel>)
    ensures Deserialized(Serialized(labels)) == Some(labels) <==>
            labels != [] && AllClean(labels)
  {
    var s := Serialized(labels);
    if labels != [] && AllClean(labels) {
      SplitJoin(Pairs(labels), COMMA);
      PiecesOfCleanLabels(labels);
    }
    if Deserialized(s) == Some(labels) {
      PiecesFree(s, COMMA);
      RecoveredAreClean(Split(s, COMMA));
    }
  }

  /** Hence different clean lists are serialised differently. */
  lemma SerializedInjective(labels: seq<ConnectionLabel>, labels': seq<ConnectionLabel>)
    requires labels != [] && AllClean(labels)
    requires labels' != [] && AllClean(labels')
    requires Serialized(labels) == Serialized(labels')
    ensures labels == labels'
  {
    LabelRoundTrip(labels);
    LabelRoundTrip(labels');
  }

  /** A label value may smuggle in a further label: one label and two then look the same to the receiver. */
  lemma UncleanValueSplits(l: ConnectionLabel, m: ConnectionLabel)
    ensures Serialized([ConnectionLabel(l.key, l.value + [COMMA] + Pair(m))]) == Serialized([l, m])
  {
    var merged := ConnectionLabel(l.key, l.value + [COMMA] + Pair(m));
    assert Pairs([merged]) == [Pair(merged)];
    assert Pairs([l, m]) == [Pair(l)] + [Pair(m)];
    JoinConcat([Pair(l)], [Pair(m)], COMMA);
    assert Pair(merged) == Pair(l) + [COMMA] + Pair(m);
  }

  // ---------- as a map ----------

  /** No key has two values. */
  ghost predicate Consistent(labels: seq<ConnectionLabel>) {
    forall i, j :: 0 <= i < j < |labels| && labels[i].key == labels[j].key ==> labels[i].value == labels[j].value
  }

  /** Later values of a key replace earlier ones. */
  function ToMap(labels: seq<ConnectionLabel>): map<string, string> {
    if labels == [] then map[]
    else ToMap(labels[..|labels| - 1])[labels[|labels| - 1].key := labels[|labels| - 1].value]
  }

  lemma {:induction false} MapComesFromLabels(labels: seq<ConnectionLabel>, k: string)
    requires k in ToMap(labels)
    ensures ConnectionLabel(k, ToMap(labels)[k]) in labels
  {
    var init, last := labels[..|labels| - 1], labels[|labels| - 1];
    if last.key == k {
      assert last == ConnectionLabel(k, ToMap(labels)[k]);
    } else {
      MapComesFromLabels(init, k);
    }
  }

  /** If no key has two values, the map holds exactly the given labels. */
  lemma {:induction false} MapHoldsLabels(labels: seq<ConnectionLabel>, k: string, v: string)
    requires Consistent(labels)
    ensures k in ToMap(labels) && ToMap(labels)[k] == v <==> ConnectionLabel(k, v) in labels
    ensures k in ToMap(labels) <==> exists i :: 0 <= i < |labels| && labels[i].key == k
  {
    if labels == [] {
    } else {
      var init, last := labels[..|labels| - 1], labels[|labels| - 1];
      MapHoldsLabels(init, k, v);
      assert labels == init + [last];
      assert (exists i :: 0 <= i < |labels| && labels[i].key == k) <==>
             (exists i :: 0 <= i < |init| && init[i].key == k) || last.key == k;
      assert last.key == k && ConnectionLabel(k, v) in init ==> v == last.value;
    }
  }

  ghost predicate Holds(m: map<string, string>, labels: seq<ConnectionLabel>) {
    forall k, v :: k in m && m[k] == v <==> ConnectionLabel(k, v) in labels
  }

  lemma NothingFromNoLabels()
    ensures Deserialized(Serialized([])) == None
  {
    SplitFree("", COMMA);
    SplitFree("", EQUALS);
  }

  /** Whatever reaches the map is a label without separators. */
  lemma ReceivedAreClean(s: string, l: ConnectionLabel)
    requires Deserialized(s).Some? && l in Deserialized(s).value
    ensures Clean(l)
  {
    PiecesFree(s, COMMA);
    RecoveredAreClean(Split(s, COMMA));
  }

  lemma HeldLabels(labels: seq<ConnectionLabel>)
    requires Deserialized(Serialized(labels)).Some?
    requires Holds(ToMap(Deserialized(Serialized(labels)).value), labels)
    ensures AllClean(labels) && Consistent(labels)
  {
    var received := Deserialized(Serialized(labels)).value;
    forall i | 0 <= i < |labels| ensures Clean(labels[i]) && ToMap(received)[labels[i].key] == labels[i].value {
      var l := labels[i];
      assert l == ConnectionLabel(l.key, l.value) && l in labels;
      MapComesFromLabels(received, l.key);
      ReceivedAreClean(Serialized(labels), l);
    }
  }

  /**
   From labels to text, back to labels, and into a map, as a registration does it: the map holds exactly the labels
   that were configured if and only if there are some, none contains a separator, and no key has two values.
   */
  lemma MapRoundTrip(labels: seq<ConnectionLabel>)
    ensures var received := Deserialized(Serialized(labels));
            received.Some? && Holds(ToMap(received.value), labels) <==>
            labels != [] && AllClean(labels) && Consistent(labels)
  {
    LabelRoundTrip(labels);
    if labels == [] {
      NothingFromNoLabels();
    } else if AllClean(labels) && Consistent(labels) {
      forall k, v
        ensures k in ToMap(labels) && ToMap(labels)[k] == v <==> ConnectionLabel(k, v) in labels
      {
        MapHoldsLabels(labels, k, v);
      }
    } else {
      var received := Deserialized(Serialized(labels));
      if received.Some? && Holds(ToMap(received.value), labels) {
        HeldLabels(labels);
      }
    }
  }
}
