/**
 Keys under which an agent announces the endpoints it offers: printing a key from a template, and parsing it.
 The parser exists twice: as it is written, and as its comment describes it.
 */
module NotificationKeys {
  import opened Wrappers
  import opened Text

  const SLASH := '/'
  const ROOT := "notification"
  const PREFIX := ROOT + [SLASH] + "nsm/endpoint/"
  const TEMPLATE := PREFIX + "service/" + NS_FIELD + "/label/" + KEY_FIELD + "/" + VALUE_FIELD
  const INVALID_PART := "<invalid>"

  const NS_FIELD := "{network-service}"
  const KEY_FIELD := "{label-key}"
  const VALUE_FIELD := "{label-value}"

  datatype Parsed = Parsed(ns: string, labelKey: string, labelValue: string)

  function OrInvalid(part: string): string {
    if part == "" then INVALID_PART else part
  }

  /** The key as the program prints it, by three replacements one after the other. */
  function Key(ns: string, labelKey: string, labelValue: string): string {
    ReplaceFirst(
      ReplaceFirst(
        ReplaceFirst(TEMPLATE, NS_FIELD, OrInvalid(ns)),
        KEY_FIELD, OrInvalid(labelKey)),
      VALUE_FIELD, OrInvalid(labelValue))
  }

  /** The parser as it is written: it splits the whole key. */
  function Parse(key: string): Option<Parsed> {
    if !(PREFIX <= key) then None
    else
      var parts := Split(key, SLASH);
      var labelIdx := |parts| - 3;
      if |parts| < 5 || parts[0] != "service" || parts[labelIdx] != "label" then None
      else Some(Parsed(Join(parts[2..labelIdx], SLASH), parts[labelIdx + 1], parts[labelIdx + 2]))
  }

  /** The parser as it is documented: it splits what follows the prefix, and the name starts after "service". */
  function ParseDocumented(key: string): Option<Parsed> {
    if PREFIX <= key then ParseSuffix(key[|PREFIX|..]) else None
  }

  function ParseSuffix(suffix: string): Option<Parsed> {
    var parts := Split(suffix, SLASH);
    var labelIdx := |parts| - 3;
    if |parts| < 5 || parts[0] != "service" || parts[labelIdx] != "label" then None
    else Some(Parsed(Join(parts[1..labelIdx], SLASH), parts[labelIdx + 1], parts[labelIdx + 2]))
  }

  /** An empty field is shown as invalid. */
  lemma EmptyFieldsShown(ns: string, labelKey: string, labelValue: string)
    ensures Key(ns, labelKey, labelValue) ==
            Key(if ns == "" then "<invalid>" else ns, if labelKey == "" then "<invalid>" else labelKey,
                if labelValue == "" then "<invalid>" else labelValue)
  {
  }

  /** The key one would expect: the three fields at their places in the template. */
  function Layout(p: Parsed): string {
    PREFIX + Suffix(p)
  }

  function Suffix(p: Parsed): string {
    "service" + [SLASH] + Fields(p)
  }

  function Fields(p: Parsed): string {
    p.ns + [SLASH] + ("label" + [SLASH] + (p.labelKey + [SLASH] + p.labelValue))
  }

  lemma LayoutText(p: Parsed)
    ensures Layout(p) ==
            "notification/nsm/endpoint/service/" + p.ns + "/label/" + p.labelKey + "/" + p.labelValue
  {
    assert PREFIX + "service" + [SLASH] == "notification/nsm/endpoint/service/";
    assert [SLASH] + "label" + [SLASH] == "/label/";
    assert [SLASH] == "/";
    FieldsText(p.ns, p.labelKey, p.labelValue, [SLASH], "label", PREFIX, "service");
  }

  lemma FieldsText(ns: string, k: string, v: string, slash: string, word: string, prefix: string, service: string)
    ensures prefix + (service + slash + (ns + slash + (word + slash + (k + slash + v)))) ==
            (prefix + service + slash) + ns + (slash + word + slash) + k + slash + v
  {
  }

  // ---------- the parser as written ----------

  /** Every key is rejected: a key with the right prefix never begins with "service". */
  lemma ParseRejectsEverything(key: string)
    ensures Parse(key) == None
  {
    if PREFIX <= key {
      SplitAfterRoot(key[|PREFIX|..]);
      assert key == PREFIX + key[|PREFIX|..];
    }
  }

  lemma SplitAfterRoot(rest: string)
    ensures Split(PREFIX + rest, SLASH)[0] == ROOT
  {
    assert PREFIX + rest == ROOT + [SLASH] + ("nsm/endpoint/" + rest) by {
      Reassociate(ROOT + [SLASH], "nsm/endpoint/", rest);
    }
    SplitHead(ROOT, SLASH, "nsm/endpoint/" + rest);
  }

  lemma Reassociate(a: string, b: string, c: string)
    ensures a + b + c == a + (b + c)
  {
  }

  lemma SplitHead(head: string, c: char, tail: string)
    requires Free(head, c)
    ensures Split(head + [c] + tail, c)[0] == head
  {
    SplitConcat(head, c, tail);
    SplitFree(head, c);
  }

  // ---------- the parser as documented ----------

  /** Parsing a laid-out key with slash-free label recovers all three fields; the name may contain anything. */
  lemma ParseLayout(p: Parsed)
    requires Free(p.labelKey, SLASH) && Free(p.labelValue, SLASH)
    ensures ParseDocumented(Layout(p)) == Some(p)
  {
    SplitSuffix(p);
    var parts := Split(Suffix(p), SLASH);
    assert parts[1..|parts| - 3] == Split(p.ns, SLASH);
    JoinSplit(p.ns, SLASH);
    DropPrefix(PREFIX, Suffix(p));
  }

  lemma SplitSuffix(p: Parsed)
    requires Free(p.labelKey, SLASH) && Free(p.labelValue, SLASH)
    ensures Split(Suffix(p), SLASH) ==
            ["service"] + (Split(p.ns, SLASH) + (["label"] + ([p.labelKey] + [p.labelValue])))
  {
    SplitFree("service", SLASH);
    SplitFree("label", SLASH);
    SplitFree(p.labelKey, SLASH);
    SplitFree(p.labelValue, SLASH);
    SplitFive("service", p.ns, "label", p.labelKey, p.labelValue);
  }

  lemma SplitFive(a: string, b: string, c: string, d: string, e: string)
    ensures Split(a + [SLASH] + (b + [SLASH] + (c + [SLASH] + (d + [SLASH] + e))), SLASH) ==
            Split(a, SLASH) + (Split(b, SLASH) + (Split(c, SLASH) + (Split(d, SLASH) + Split(e, SLASH))))
  {
    SplitConcat(a, SLASH, b + [SLASH] + (c + [SLASH] + (d + [SLASH] + e)));
    SplitConcat(b, SLASH, c + [SLASH] + (d + [SLASH] + e));
    SplitConcat(c, SLASH, d + [SLASH] + e);
    SplitConcat(d, SLASH, e);
  }

  lemma DropPrefix(prefix: string, rest: string)
    ensures prefix <= prefix + rest && (prefix + rest)[|prefix|..] == rest
  {
  }

  /** Splitting the suffix alone would not repair the parser: a name taken from the third part on is never the name. */
  lemma NameFromThirdPartIsWrong(p: Parsed)
    requires Free(p.labelKey, SLASH) && Free(p.labelValue, SLASH) && p.ns != ""
    ensures var parts := Split(Suffix(p), SLASH);
            |parts| >= 5 && Join(parts[2..|parts| - 3], SLASH) != p.ns
  {
    SplitSuffix(p);
    var names, parts := Split(p.ns, SLASH), Split(Suffix(p), SLASH);
    assert parts[2..|parts| - 3] == names[1..];
    JoinSplit(p.ns, SLASH);
    assert |names| > 1 ==> |Join(names, SLASH)| > |Join(names[1..], SLASH)|;
  }

  /** Only laid-out keys are accepted, so an accepted key can be laid out again from what was parsed. */
  lemma AcceptedIsLayout(key: string)
    requires ParseDocumented(key).Some?
    ensures var p := ParseDocumented(key).value;
            Free(p.labelKey, SLASH) && Free(p.labelValue, SLASH) && key == Layout(p)
  {
    var suffix := key[|PREFIX|..];
    var parts := Split(suffix, SLASH);
    var n := |parts| - 3;
    var p := ParseDocumented(key).value;
    PiecesFree(suffix, SLASH);
    JoinSplit(suffix, SLASH);
    var names := parts[1..n];
    assert parts == ["service"] + (names + (["label"] + ([p.labelKey] + [p.labelValue])));
    JoinConcat([p.labelKey], [p.labelValue], SLASH);
    JoinConcat(["label"], [p.labelKey] + [p.labelValue], SLASH);
    JoinConcat(names, ["label"] + ([p.labelKey] + [p.labelValue]), SLASH);
    JoinConcat(["service"], names + (["label"] + ([p.labelKey] + [p.labelValue])), SLASH);
    assert suffix == Suffix(p);
    assert key == PREFIX + suffix;
  }

  /** The accepted language, and that a key has only one reading. */
  lemma ParseDocumentedExact(key: string, p: Parsed)
    ensures ParseDocumented(key) == Some(p) <==>
            Free(p.labelKey, SLASH) && Free(p.labelValue, SLASH) && key == Layout(p)
  {
    if ParseDocumented(key) == Some(p) {
      AcceptedIsLayout(key);
    }
    if Free(p.labelKey, SLASH) && Free(p.labelValue, SLASH) && key == Layout(p) {
      ParseLayout(p);
    }
  }

  // ---------- what the three replacements print ----------

  /** The fields after the second replacement. */
  ghost function KeyPlaced(ns: string, labelKey: string): Parsed {
    if Contains(ns, KEY_FIELD) then Parsed(ReplaceFirst(ns, KEY_FIELD, labelKey), KEY_FIELD, VALUE_FIELD)
    else Parsed(ns, labelKey, VALUE_FIELD)
  }

  /**
   Where the three fields end up. A field that contains a later placeholder captures the replacement meant
   for the template.
   */
  ghost function Placed(p: Parsed): Parsed {
    var q := KeyPlaced(p.ns, p.labelKey);
    if Contains(q.ns, VALUE_FIELD) then
      q.(ns := ReplaceFirst(q.ns, VALUE_FIELD, p.labelValue))
    else if Contains(q.labelKey, VALUE_FIELD) then
      q.(labelKey := ReplaceFirst(q.labelKey, VALUE_FIELD, p.labelValue))
    else
      q.(labelValue := p.labelValue)
  }

  lemma NoBraceInPrefix()
    ensures '{' !in PREFIX + "service"
  {
  }

  /** A text without braces contains no placeholder. */
  lemma NoBrace(s: string, pat: string)
    requires '{' !in s && pat != "" && pat[0] == '{'
    ensures !Contains(s, pat)
  {
    forall i ensures !OccursAt(s, pat, i) {
      assert 0 <= i < |s| ==> s[i + 0] != pat[0];
    }
  }

  predicate Placeholder(pat: string) {
    pat != "" && pat[0] == '{' && Free(pat, SLASH)
  }

  lemma ReplaceInLayout(p: Parsed, pat: string, neu: string)
    requires Placeholder(pat)
    ensures ReplaceFirst(Layout(p), pat, neu) ==
            if Contains(p.ns, pat) then Layout(p.(ns := ReplaceFirst(p.ns, pat, neu)))
            else if Contains(p.labelKey, pat) then Layout(p.(labelKey := ReplaceFirst(p.labelKey, pat, neu)))
            else Layout(p.(labelValue := ReplaceFirst(p.labelValue, pat, neu)))
  {
    var inner := p.labelKey + [SLASH] + p.labelValue;
    NoBraceInPrefix();
    NoBrace(PREFIX + "service", pat);
    assert Layout(p) == PREFIX + "service" + [SLASH] + Fields(p);
    assert forall q: Parsed :: Layout(q) == PREFIX + "service" + [SLASH] + Fields(q);
    NoBrace("label", pat);
    ReplaceRight(PREFIX + "service", SLASH, Fields(p), pat, neu);
    if Contains(p.ns, pat) {
      ReplaceLeft(p.ns, SLASH, "label" + [SLASH] + inner, pat, neu);
    } else {
      ReplaceRight(p.ns, SLASH, "label" + [SLASH] + inner, pat, neu);
      ReplaceRight("label", SLASH, inner, pat, neu);
      if Contains(p.labelKey, pat) {
        ReplaceLeft(p.labelKey, SLASH, p.labelValue, pat, neu);
      } else {
        ReplaceRight(p.labelKey, SLASH, p.labelValue, pat, neu);
      }
    }
  }

  lemma TemplateIsLayout()
    ensures TEMPLATE == Layout(Parsed(NS_FIELD, KEY_FIELD, VALUE_FIELD))
  {
    assert "service/" == "service" + [SLASH];
    assert "/label/" == [SLASH] + "label" + [SLASH];
    assert "/" == [SLASH];
  }

  lemma FillName(pat: string, neu: string, k: string, v: string)
    requires Placeholder(pat)
    ensures ReplaceFirst(Layout(Parsed(pat, k, v)), pat, neu) == Layout(Parsed(neu, k, v))
  {
    ReplaceWhole(pat, neu);
    ReplaceInLayout(Parsed(pat, k, v), pat, neu);
  }

  lemma FillKey(ns: string, pat: string, neu: string, v: string)
    requires Placeholder(pat)
    ensures ReplaceFirst(Layout(Parsed(ns, pat, v)), pat, neu) ==
            Layout(if Contains(ns, pat) then Parsed(ReplaceFirst(ns, pat, neu), pat, v) else Parsed(ns, neu, v))
  {
    ReplaceWhole(pat, neu);
    ReplaceInLayout(Parsed(ns, pat, v), pat, neu);
  }

  lemma FillValue(ns: string, k: string, pat: string, neu: string)
    requires Placeholder(pat)
    ensures ReplaceFirst(Layout(Parsed(ns, k, pat)), pat, neu) ==
            Layout(if Contains(ns, pat) then Parsed(ReplaceFirst(ns, pat, neu), k, pat)
                   else if Contains(k, pat) then Parsed(ns, ReplaceFirst(k, pat, neu), pat)
                   else Parsed(ns, k, neu))
  {
    ReplaceWhole(pat, neu);
    ReplaceInLayout(Parsed(ns, k, pat), pat, neu);
  }

  lemma PlaceholderFields()
    ensures Placeholder(NS_FIELD) && Placeholder(KEY_FIELD) && Placeholder(VALUE_FIELD)
  {
  }

  /** The printed key is always a laid-out key, though not always of the fields that were given. */
  lemma KeyIsLayout(p: Parsed)
    requires p.ns != "" && p.labelKey != "" && p.labelValue != ""
    ensures Key(p.ns, p.labelKey, p.labelValue) == Layout(Placed(p))
  {
    PlaceholderFields();
    TemplateIsLayout();
    FillName(NS_FIELD, p.ns, KEY_FIELD, VALUE_FIELD);
    FillKey(p.ns, KEY_FIELD, p.labelKey, VALUE_FIELD);
    var q := KeyPlaced(p.ns, p.labelKey);
    FillValue(q.ns, q.labelKey, VALUE_FIELD, p.labelValue);
  }

  /** No field swallows a placeholder that is filled in after it. */
  ghost predicate PrintsFaithfully(p: Parsed) {
    && (Contains(p.ns, KEY_FIELD) ==> p.labelKey == KEY_FIELD)
    && (Contains(p.ns, VALUE_FIELD) || Contains(p.labelKey, VALUE_FIELD) ==> p.labelValue == VALUE_FIELD)
  }

  lemma PlacedFaithful(p: Parsed)
    ensures PrintsFaithfully(p) <==> Placed(p) == p
  {
    ReplaceBySelf(p.ns, KEY_FIELD);
    ReplaceBySelf(p.ns, VALUE_FIELD);
    ReplaceBySelf(p.labelKey, VALUE_FIELD);
    if p.labelKey != KEY_FIELD && Contains(p.ns, KEY_FIELD) {
      KeyFieldHasNoValueField();
      assert Placed(p).labelKey == KEY_FIELD;
    }
  }

  lemma KeyFieldHasNoValueField()
    ensures !Contains(KEY_FIELD, VALUE_FIELD)
  {
    assert |KEY_FIELD| < |VALUE_FIELD|;
  }

  lemma {:induction false} ReplaceKeepsFree(s: string, pat: string, neu: string)
    requires pat != "" && Free(s, SLASH) && Free(neu, SLASH)
    ensures Free(ReplaceFirst(s, pat, neu), SLASH)
  {
    if |s| < |pat| || OccursAt(s, pat, 0) {
    } else {
      ReplaceKeepsFree(s[1..], pat, neu);
    }
  }

  lemma PlacedKeepsFree(p: Parsed)
    requires Free(p.labelKey, SLASH) && Free(p.labelValue, SLASH)
    ensures Free(Placed(p).labelKey, SLASH) && Free(Placed(p).labelValue, SLASH)
  {
    ReplaceKeepsFree(p.labelKey, VALUE_FIELD, p.labelValue);
    ReplaceKeepsFree(KEY_FIELD, VALUE_FIELD, p.labelValue);
  }

  /** Exactly which fields a key carries through printing and (documented) parsing. */
  ghost predicate Carried(p: Parsed) {
    && p.ns != "" && p.labelKey != "" && p.labelValue != ""
    && Free(p.labelKey, SLASH) && Free(p.labelValue, SLASH)
    && PrintsFaithfully(p)
  }

  /** Round trip, for all fields: the documented parser recovers what was printed if and only if it is `Carried`. */
  lemma KeyRoundTrip(p: Parsed)
    ensures ParseDocumented(Key(p.ns, p.labelKey, p.labelValue)) == Some(p) <==> Carried(p)
  {
    var n := Parsed(OrInvalid(p.ns), OrInvalid(p.labelKey), OrInvalid(p.labelValue));
    var key := Key(p.ns, p.labelKey, p.labelValue);
    assert key == Key(n.ns, n.labelKey, n.labelValue);
    KeyIsLayout(n);
    ParseDocumentedExact(key, p);
    PlacedFaithful(n);
    if Free(n.labelKey, SLASH) && Free(n.labelValue, SLASH) {
      PlacedKeepsFree(n);
      ParseLayout(Placed(n));
      if ParseDocumented(key) == Some(p) {
        PlacedNonEmpty(n);
      }
    }
  }

  lemma PlacedNonEmpty(p: Parsed)
    requires p.ns != "" && p.labelKey != "" && p.labelValue != ""
    ensures Placed(p).ns != "" && Placed(p).labelKey != "" && Placed(p).labelValue != ""
  {
  }

  /**
   A service named like the placeholder of the label key trades places with it: what is parsed back is a service
   with the name of the label key.
   */
  lemma SwallowedPlaceholder(labelKey: string, labelValue: string)
    requires labelKey != "" && labelValue != "" && !Contains(labelKey, VALUE_FIELD) && Free(labelValue, SLASH)
    ensures ParseDocumented(Key(KEY_FIELD, labelKey, labelValue)) == Some(Parsed(labelKey, KEY_FIELD, labelValue))
  {
    var p := Parsed(KEY_FIELD, labelKey, labelValue);
    PlaceholderFields();
    KeyFieldHasNoValueField();
    ReplaceWhole(KEY_FIELD, labelKey);
    KeyIsLayout(p);
    assert Placed(p) == Parsed(labelKey, KEY_FIELD, labelValue);
    ParseLayout(Placed(p));
  }

  /** For example. */
  lemma SwallowedPlaceholderExample()
    ensures ParseDocumented(Key("{label-key}", "app", "nat")) == Some(Parsed("app", "{label-key}", "nat"))
  {
    NoBrace("app", VALUE_FIELD);
    SwallowedPlaceholder("app", "nat");
  }

  /** A service named like the placeholder of the label value trades places with that. */
  lemma SwallowedValueExample()
    ensures ParseDocumented(Key("{label-value}", "app", "nat")) == Some(Parsed("nat", "app", "{label-value}"))
  {
    SwallowedValue("app", "nat");
  }

  lemma SwallowedValue(labelKey: string, labelValue: string)
    requires labelKey != "" && labelValue != "" && Free(labelKey, SLASH)
    ensures ParseDocumented(Key(VALUE_FIELD, labelKey, labelValue)) == Some(Parsed(labelValue, labelKey, VALUE_FIELD))
  {
    var p := Parsed(VALUE_FIELD, labelKey, labelValue);
    PlaceholderFields();
    ValueFieldHasNoKeyField();
    ReplaceWhole(VALUE_FIELD, labelValue);
    KeyIsLayout(p);
    assert Placed(p) == Parsed(labelValue, labelKey, VALUE_FIELD);
    ParseLayout(Placed(p));
  }

  lemma ValueFieldHasNoKeyField()
    ensures !Contains(VALUE_FIELD, KEY_FIELD)
  {
    forall i ensures !OccursAt(VALUE_FIELD, KEY_FIELD, i) {
      assert VALUE_FIELD[1] == 'l' && VALUE_FIELD[2] == 'a' && KEY_FIELD[0] == '{' && VALUE_FIELD[7] == 'v';
      assert KEY_FIELD[7] == 'k';
    }
  }

  /** The other direction: a key the documented parser accepts is printed again from its fields. */
  lemma ReprintAccepted(key: string)
    requires ParseDocumented(key).Some? && Carried(ParseDocumented(key).value)
    ensures var p := ParseDocumented(key).value; Key(p.ns, p.labelKey, p.labelValue) == key
  {
    var p := ParseDocumented(key).value;
    AcceptedIsLayout(key);
    KeyIsLayout(p);
    PlacedFaithful(p);
  }
}
