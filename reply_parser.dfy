/** `parseAIResponse` (src/lib/petIdentifier.ts): it turns the vision model's
    text reply into an identification record, first by reading the reply as
    JSON and taking its four fields with defaults, and, when the reply is not
    JSON (or is the JSON `null`), by searching the text for four labelled
    fields with regular expressions. It never fails. */
module ReplyParser {
  import opened Wrappers
  import opened Text
  import opened Json
  import opened LabelMatch

  /** The record the parser returns. The TypeScript type promises a closed
      `animal`, a string `breed` and `description` and a number `confidence`,
      but on the JSON path each field holds whatever truthy JSON value the
      reply had, so the fields are JSON values. */
  datatype Identification = Identification(animal: Json, breed: Json, confidence: Json, description: Json)

  /** The values the fallback path can give `animal`. */
  const Animals: set<string> := {"cat", "dog", "unknown"}

  /** `/animal[:\s]+(cat|dog|unknown)/i` */
  const AnimalPattern := Pattern("animal", OneOf(["cat", "dog", "unknown"]))
  /** `/breed[:\s]+([^\n,]+)/i` */
  const BreedPattern := Pattern("breed", NoneOf({'\n', ','}))
  /** `/confidence[:\s]+(\d+(?:\.\d+)?)/i` */
  const ConfidencePattern := Pattern("confidence", Decimal)
  /** `/description[:\s]+([^\n]+)/i` */
  const DescriptionPattern := Pattern("description", NoneOf({'\n'}))

  const JsonDefaultAnimal := "unknown"
  const JsonDefaultBreed := "Unknown"
  const JsonDefaultConfidence: real := 0.5
  const JsonDefaultDescription := "No description available"

  const FallbackDefaultBreed := "Unknown Breed"
  const FallbackDefaultConfidence: real := 0.7
  const FallbackDefaultDescription := "Pet breed identified from image analysis."

  // ----- JSON path -----

  /** The object literal built from the parsed reply `v` (not `null`). */
  function FromJson(v: Json): (r: Identification)
    requires v != JNull
    ensures Truthy(r.animal) && Truthy(r.breed) && Truthy(r.confidence) && Truthy(r.description)
    ensures r.animal == JString(JsonDefaultAnimal) || Member(v, "animal") == Some(r.animal)
    ensures r.breed == JString(JsonDefaultBreed) || Member(v, "breed") == Some(r.breed)
    ensures r.confidence == JNumber(JsonDefaultConfidence) || Member(v, "confidence") == Some(r.confidence)
    ensures r.description == JString(JsonDefaultDescription) || Member(v, "description") == Some(r.description)
    ensures Member(v, "animal").Some? && Truthy(Member(v, "animal").value) ==> r.animal == Member(v, "animal").value
    ensures Member(v, "breed").Some? && Truthy(Member(v, "breed").value) ==> r.breed == Member(v, "breed").value
    ensures Member(v, "confidence").Some? && Truthy(Member(v, "confidence").value) ==>
              r.confidence == Member(v, "confidence").value
    ensures Member(v, "description").Some? && Truthy(Member(v, "description").value) ==>
              r.description == Member(v, "description").value
  {
    Identification(
      OrElse(Member(v, "animal"), JString(JsonDefaultAnimal)),
      OrElse(Member(v, "breed"), JString(JsonDefaultBreed)),
      OrElse(Member(v, "confidence"), JNumber(JsonDefaultConfidence)),
      OrElse(Member(v, "description"), JString(JsonDefaultDescription)))
  }

  // ----- Fallback path -----

  lemma PatternsWellFormed()
    ensures WellFormed(AnimalPattern) && WellFormed(BreedPattern)
    ensures WellFormed(ConfidencePattern) && WellFormed(DescriptionPattern)
  {
    var ws := AnimalPattern.capture.words;
    forall i, j | 0 <= i < |ws| && 0 <= j < |ws| && i != j ensures !FoldPrefix(ws[i], ws[j]) {
      assert Upper(ws[i][0]) != Upper(ws[j][0]);
    }
  }

  /** A character that folds onto a lower-case ASCII letter lower-cases to it. */
  lemma LowerOfFolded(c: char, l: char)
    requires 'a' <= l <= 'z' && SameIgnoringCase(c, l)
    ensures Lower(c) == l
  {
  }

  /** Each alternative of the animal pattern is one of the animals, spelt in
      lower-case ASCII letters. */
  lemma AnimalWord(w: string)
    requires w in AnimalPattern.capture.words
    ensures w in Animals
    ensures forall k :: 0 <= k < |w| ==> 'a' <= w[k] <= 'z'
  {
    assert w == "cat" || w == "dog" || w == "unknown";
  }

  /** The text a capture holds, lower-cased, is the alternative it matched. */
  lemma LowerOfCapture(s: string, m: Match)
    requires IsMatch(s, AnimalPattern, m)
    ensures LowerString(s[m.capStart..m.capEnd]) in Animals
    ensures FoldsTo(s, LowerString(s[m.capStart..m.capEnd]), m.capStart)
  {
    var w :| w in AnimalPattern.capture.words && m.capEnd == m.capStart + |w| && FoldsTo(s, w, m.capStart);
    AnimalWord(w);
    var t := s[m.capStart..m.capEnd];
    forall k | 0 <= k < |w| ensures LowerString(t)[k] == w[k] {
      assert SameIgnoringCase(s[m.capStart + k], w[k]);
      LowerOfFolded(t[k], w[k]);
    }
    assert LowerString(t) == w;
  }

  /** `animalMatch?.[1]?.toLowerCase() || "unknown"`: always one of the three
      animals, the alternative the first match captured, or "unknown" when
      nothing matches. */
  function FallbackAnimal(s: string): (r: string)
    ensures r in Animals
    ensures NoMatch(s, AnimalPattern) ==> r == "unknown"
    ensures forall m :: IsFirstMatch(s, AnimalPattern, m) ==> FoldsTo(s, r, m.capStart)
  {
    PatternsWellFormed();
    FindCorrect(s, AnimalPattern);
    FindIsFirstMatch(s, AnimalPattern);
    match Find(s, AnimalPattern)
    case None => "unknown"
    case Some(m) =>
      LowerOfCapture(s, m);
      LowerString(s[m.capStart..m.capEnd])
  }

  /** The trimmed text of a `[^stops]+` capture holds none of the stops. */
  lemma TrimmedCaptureAvoids(s: string, pat: Pattern, m: Match)
    requires IsMatch(s, pat, m)
    ensures pat.capture.NoneOf? ==>
              forall c :: c in Trim(s[m.capStart..m.capEnd]) ==> c !in pat.capture.stops
  {
    var t := s[m.capStart..m.capEnd];
    if pat.capture.NoneOf? {
      forall c | c in t ensures c !in pat.capture.stops {
        var j :| 0 <= j < |t| && t[j] == c;
        assert s[m.capStart + j] == c;
      }
    }
  }

  /** A field value as the fallback path can return it: not empty, without
      white space at either end, and free of the capture's stop characters. */
  ghost predicate CleanField(t: string, stops: set<char>) {
    && t != "" && !IsSpace(t[0]) && !IsSpace(t[|t| - 1])
    && forall c :: c in t ==> c !in stops
  }

  /** Both fallback defaults are clean by the stop sets of their patterns. */
  lemma FallbackDefaultsClean()
    ensures CleanField(FallbackDefaultBreed, BreedPattern.capture.stops)
    ensures CleanField(FallbackDefaultDescription, DescriptionPattern.capture.stops)
  {
    var b, d := FallbackDefaultBreed, FallbackDefaultDescription;
    assert forall i :: 0 <= i < |b| ==> b[i] != '\n' && b[i] != ',';
    assert forall i :: 0 <= i < |d| ==> d[i] != '\n';
  }

  /** `match?.[1]?.trim() || fallback`: the trimmed capture of the first
      match unless it is empty. */
  function TrimmedCaptureOr(s: string, pat: Pattern, fallback: string): (r: string)
    requires WellFormed(pat) && pat.capture.NoneOf?
    requires CleanField(fallback, pat.capture.stops)
    ensures CleanField(r, pat.capture.stops)
    ensures NoMatch(s, pat) ==> r == fallback
    ensures forall m :: IsFirstMatch(s, pat, m) ==>
              var t := Trim(s[m.capStart..m.capEnd]);
              r == (if t == "" then fallback else t)
  {
    FindCorrect(s, pat);
    FindIsFirstMatch(s, pat);
    match Find(s, pat)
    case None => fallback
    case Some(m) =>
      TrimmedCaptureAvoids(s, pat, m);
      var t := Trim(s[m.capStart..m.capEnd]);
      if t == "" then fallback else t
  }

  /** The fallback `breed`: never empty, never holding a line break or a
      comma, without surrounding white space; the trimmed text after the
      first "breed" label, or "Unknown Breed". */
  function FallbackBreed(s: string): (r: string)
    ensures r != "" && '\n' !in r && ',' !in r
    ensures !IsSpace(r[0]) && !IsSpace(r[|r| - 1])
    ensures NoMatch(s, BreedPattern) ==> r == FallbackDefaultBreed
    ensures forall m :: IsFirstMatch(s, BreedPattern, m) ==>
              var t := Trim(s[m.capStart..m.capEnd]);
              r == (if t == "" then FallbackDefaultBreed else t)
  {
    PatternsWellFormed();
    FallbackDefaultsClean();
    var r := TrimmedCaptureOr(s, BreedPattern, FallbackDefaultBreed);
    assert '\n' in BreedPattern.capture.stops && ',' in BreedPattern.capture.stops;
    r
  }

  /** The fallback `description`: never empty, never holding a line break,
      without surrounding white space; the trimmed rest of the line after the
      first "description" label, or the fixed default sentence. */
  function FallbackDescription(s: string): (r: string)
    ensures r != "" && '\n' !in r
    ensures !IsSpace(r[0]) && !IsSpace(r[|r| - 1])
    ensures NoMatch(s, DescriptionPattern) ==> r == FallbackDefaultDescription
    ensures forall m :: IsFirstMatch(s, DescriptionPattern, m) ==>
              var t := Trim(s[m.capStart..m.capEnd]);
              r == (if t == "" then FallbackDefaultDescription else t)
  {
    PatternsWellFormed();
    FallbackDefaultsClean();
    var r := TrimmedCaptureOr(s, DescriptionPattern, FallbackDefaultDescription);
    assert '\n' in DescriptionPattern.capture.stops;
    r
  }

  /** `confidenceMatch ? parseFloat(confidenceMatch[1]) : 0.7`: never
      negative, with no upper bound; the value of the decimal numeral after
      the first "confidence" label, or 0.7. Unlike the other fields a match
      of "0" is kept: it is not replaced by the default. */
  function FallbackConfidence(s: string): (r: real)
    ensures r >= 0.0
    ensures NoMatch(s, ConfidencePattern) ==> r == FallbackDefaultConfidence
    ensures forall m :: IsFirstMatch(s, ConfidencePattern, m) ==>
              r == DecimalValue(s[m.capStart..m.capEnd])
  {
    PatternsWellFormed();
    FindCorrect(s, ConfidencePattern);
    FindIsFirstMatch(s, ConfidencePattern);
    match Find(s, ConfidencePattern)
    case None => FallbackDefaultConfidence
    case Some(m) => DecimalValue(s[m.capStart..m.capEnd])
  }

  /** The object literal of the `catch` branch. */
  function Fallback(s: string): Identification {
    Identification(
      JString(FallbackAnimal(s)),
      JString(FallbackBreed(s)),
      JNumber(FallbackConfidence(s)),
      JString(FallbackDescription(s)))
  }

  /** `parseAIResponse(content)`, where `decoded` is what `JSON.parse(content)`
      did: None when it threw. Reading `animal` of a parsed `null` throws as
      well, so `null` also takes the fallback path. */
  function ParseReply(content: string, decoded: Option<Json>): Identification {
    match decoded
    case Some(v) => if v == JNull then Fallback(content) else FromJson(v)
    case None => Fallback(content)
  }

  // ----- Properties of the JSON path -----

  /** A reply object whose four fields are truthy is returned as it is,
      whatever their types. */
  lemma JsonFieldsKept(content: string, fields: map<string, Json>)
    requires forall k :: k in ["animal", "breed", "confidence", "description"] ==>
               k in fields && Truthy(fields[k])
    ensures ParseReply(content, Some(JObject(fields))) ==
              Identification(fields["animal"], fields["breed"], fields["confidence"], fields["description"])
  {
    assert "animal" in ["animal", "breed", "confidence", "description"];
    assert "breed" in ["animal", "breed", "confidence", "description"];
    assert "confidence" in ["animal", "breed", "confidence", "description"];
    assert "description" in ["animal", "breed", "confidence", "description"];
  }

  /** A missing or falsy field gets its default; in particular a confidence
      of exactly 0 becomes 0.5. */
  lemma JsonFalsyDefaults(content: string, v: Json)
    requires v != JNull
    ensures var r := ParseReply(content, Some(v));
            && (Member(v, "animal").None? || !Truthy(Member(v, "animal").value) ==>
                  r.animal == JString("unknown"))
            && (Member(v, "breed").None? || !Truthy(Member(v, "breed").value) ==>
                  r.breed == JString("Unknown"))
            && (Member(v, "confidence").None? || !Truthy(Member(v, "confidence").value) ==>
                  r.confidence == JNumber(0.5))
            && (Member(v, "description").None? || !Truthy(Member(v, "description").value) ==>
                  r.description == JString("No description available"))
  {
  }

  lemma JsonZeroConfidence(content: string, fields: map<string, Json>)
    requires "confidence" in fields && fields["confidence"] == JNumber(0.0)
    ensures ParseReply(content, Some(JObject(fields))).confidence == JNumber(0.5)
  {
  }

  /** The JSON path does not hold `animal` to the three values: an object
      saying "human" (which the prompt itself allows) yields "human". */
  lemma JsonAnimalNotChecked(content: string, fields: map<string, Json>)
    requires "animal" in fields && fields["animal"] == JString("human")
    ensures ParseReply(content, Some(JObject(fields))).animal == JString("human")
    ensures "human" !in Animals
  {
  }

  /** A reply that parses to a number, string, boolean or array has none of
      the four fields: every default is taken. */
  lemma JsonNonObjectDefaults(content: string, v: Json)
    requires v != JNull && !v.JObject?
    ensures ParseReply(content, Some(v)) ==
              Identification(JString("unknown"), JString("Unknown"), JNumber(0.5),
                             JString("No description available"))
  {
  }

  /** The two paths default the confidence differently: 0.5 for a JSON reply
      without it, 0.7 for a text reply without it. */
  lemma DefaultConfidencesDiffer()
    ensures ParseReply("{}", Some(JObject(map[]))).confidence == JNumber(0.5)
    ensures ParseReply("", None).confidence == JNumber(0.7)
  {
    assert NoMatch("", ConfidencePattern);
  }

  // ----- Properties of the fallback path -----

  /** When the reply is not JSON, or is the JSON `null`, `animal` is one of
      "cat", "dog" and "unknown". */
  lemma FallbackAnimalClosed(content: string, decoded: Option<Json>)
    requires decoded.None? || decoded == Some(JNull)
    ensures ParseReply(content, decoded).animal.JString?
    ensures ParseReply(content, decoded).animal.s in Animals
  {
  }

  /** Text whose labels are all followed directly by something other than
      ':' or white space (fenced JSON with quoted keys, say) takes every
      fallback default. */
  lemma QuotedLabelsGiveDefaults(s: string)
    requires forall pat :: pat in [AnimalPattern, BreedPattern, ConfidencePattern, DescriptionPattern] ==>
               forall p :: FoldsTo(s, pat.key, p) ==>
                 p + |pat.key| < |s| && !IsSeparator(s[p + |pat.key|])
    ensures Fallback(s) ==
              Identification(JString("unknown"), JString("Unknown Breed"), JNumber(0.7),
                             JString("Pet breed identified from image analysis."))
  {
    UnseparatedLabelsNoMatch(s, AnimalPattern);
    UnseparatedLabelsNoMatch(s, BreedPattern);
    UnseparatedLabelsNoMatch(s, ConfidencePattern);
    UnseparatedLabelsNoMatch(s, DescriptionPattern);
  }

  /** The fallback `animal` is the alternative the first match spells,
      whatever the case it is written in. */
  lemma FallbackAnimalOfMatch(s: string, m: Match, w: string)
    requires IsFirstMatch(s, AnimalPattern, m)
    requires w in Animals && FoldsTo(s, w, m.capStart)
    ensures FallbackAnimal(s) == w
  {
    var r := FallbackAnimal(s);
    PatternsWellFormed();
    var ws := AnimalPattern.capture.words;
    assert r in ws && w in ws;
    if |r| <= |w| {
      FoldsToShared(s, r, w, m.capStart);
    } else {
      FoldsToShared(s, w, r, m.capStart);
    }
  }

  /** A reply without the letter 'a' in either case cannot hold the label
      "animal": its fallback `animal` is "unknown". */
  lemma NoLetterANoAnimal(s: string)
    requires forall i :: 0 <= i < |s| ==> s[i] != 'a' && s[i] != 'A'
    ensures FallbackAnimal(s) == "unknown"
  {
    var key := AnimalPattern.key;
    assert key[0] == 'a';
    forall i | 0 <= i < |s| ensures !SameIgnoringCase(s[i], key[0]) {
      assert Upper(s[i]) != 'A';
    }
    MissingLetterNoMatch(s, AnimalPattern, 0);
  }

  // ----- Labelled plain-text replies -----

  lemma AnimalLabel(s: string)
    requires StartsWith(s, "Animal: DOG")
    ensures FoldsTo(s, "animal", 0) && IsSeparator(s[6]) && IsSeparator(s[7]) && !IsSeparator(s[8])
  {
  }

  lemma AnimalValue(s: string)
    requires StartsWith(s, "Animal: DOG")
    ensures FoldsTo(s, "dog", 8)
  {
  }

  /** A reply whose first line starts "Animal: DOG" says "dog": the label and
      the value are matched ignoring case, and the value is lower-cased. */
  lemma AnimalLine(s: string)
    requires StartsWith(s, "Animal: DOG")
    ensures FallbackAnimal(s) == "dog"
  {
    AnimalLabel(s);
    AnimalValue(s);
    var m := Match(0, 8, 11);
    assert "dog" in AnimalPattern.capture.words;
    assert IsMatch(s, AnimalPattern, m);
    PatternsWellFormed();
    WordsCaptureCorrect(s, AnimalPattern, 8);
    FirstMatchAt(s, AnimalPattern, m);
    FallbackAnimalOfMatch(s, m, "dog");
  }

  lemma BreedLabel(s: string)
    requires StartsWith(s, "Breed:  Pug , small")
    ensures FoldsTo(s, "breed", 0) && !IsSeparator(s[8])
    ensures forall j :: 5 <= j < 8 ==> IsSeparator(s[j])
  {
  }

  lemma BreedValue(s: string)
    requires StartsWith(s, "Breed:  Pug , small")
    ensures s[8..12] == "Pug " && s[12] == ','
  {
    var p := "Breed:  Pug , small";
    assert s[..|p|] == p;
    assert s[8..12] == p[8..12];
  }

  /** The breed runs up to the comma and loses its surrounding spaces. */
  lemma BreedLine(s: string)
    requires StartsWith(s, "Breed:  Pug , small")
    ensures FallbackBreed(s) == "Pug"
  {
    BreedLabel(s);
    BreedValue(s);
    var stops := BreedPattern.capture.stops;
    forall j | 8 <= j < 12 ensures s[j] !in stops {
      assert s[j] == s[8..12][j - 8];
    }
    NoneOfCaptureUpTo(s, stops, 8, 12);
    var m := Match(0, 8, 12);
    assert IsMatch(s, BreedPattern, m);
    PatternsWellFormed();
    FirstMatchAt(s, BreedPattern, m);
    TrimPug();
  }

  lemma TrimPug()
    ensures Trim("Pug ") == "Pug"
  {
    assert "Pug " == "Pug" + [' '];
    TrimTrailingSpace("Pug", ' ');
  }

  lemma ConfidenceLabel(s: string)
    requires StartsWith(s, "Confidence: 85\n")
    ensures FoldsTo(s, "confidence", 0) && IsSeparator(s[10]) && IsSeparator(s[11]) && !IsSeparator(s[12])
  {
  }

  lemma ConfidenceValue(s: string)
    requires StartsWith(s, "Confidence: 85\n")
    ensures s[12..14] == "85" && IsDigit(s[12]) && IsDigit(s[13])
    ensures !IsDigit(s[14]) && s[14] != '.'
  {
  }

  /** Nothing bounds the fallback confidence: "85" is read as 85. */
  lemma ConfidenceLine(s: string)
    requires StartsWith(s, "Confidence: 85\n")
    ensures FallbackConfidence(s) == 85.0
  {
    ConfidenceLabel(s);
    ConfidenceValue(s);
    DecimalCaptureUpTo(s, 12, 14);
    var m := Match(0, 12, 14);
    assert IsMatch(s, ConfidencePattern, m);
    PatternsWellFormed();
    FirstMatchAt(s, ConfidencePattern, m);
    DecimalValueOfDigits("85");
  }

  lemma DescriptionTextMatch(s: string)
    requires s == "Description:\n\nA pug."
    ensures IsMatch(s, DescriptionPattern, Match(0, 14, 20)) && !IsSeparator(s[14])
    ensures s[14..20] == "A pug."
  {
    assert FoldsTo(s, "description", 0);
  }

  /** The separators may span line breaks: the description is taken from
      the first non-blank line after the label. */
  lemma DescriptionText(s: string)
    requires s == "Description:\n\nA pug."
    ensures FallbackDescription(s) == "A pug."
  {
    DescriptionTextMatch(s);
    PatternsWellFormed();
    FirstMatchAt(s, DescriptionPattern, Match(0, 14, 20));
    TrimUnpadded("A pug.");
  }
}
