/**
 * The form enhancements of the Sigma client extension
 * (sigma-js-client-extension/assets/global.js, `Sigma.forms`): required-field
 * and e-mail validation on submit, the size and type checks of file uploads,
 * and the auto-save of form values in a key/value store.
 */
module SigmaForms {
  import opened Wrappers
  import opened Text
  import opened EmailPattern

  // ---------------------------------------------------------------------------
  // Validation on submit

  /** A form control: its value, whether it is an e-mail input, whether it is
      `required`, and whether it carried `sigma-invalid` before the submit. */
  datatype Control = Control(value: string, isEmail: bool, required: bool, wasInvalid: bool)

  /** The verdict on one required control: blank (`!value.trim()`, see
      Text.TrimEmptyIff), or an e-mail input with a value the pattern rejects
      (see EmailPattern.IsValidEmailMatchesRegex). */
  predicate RequiredInvalid(c: Control)
  {
    AllWhitespace(c.value) || (c.isEmail && c.value != [] && !IsValidEmail(c.value))
  }

  /** Whether a control carries `sigma-invalid` after the submit handler ran:
      required controls are judged afresh, the others are never touched. */
  predicate InvalidAfter(c: Control)
  {
    if c.required then RequiredInvalid(c) else c.wasInvalid
  }

  /** The submit handler of `initValidation`: judges each required control in
      turn with a running `isValid` flag. The submit is prevented iff some
      required control is invalid, and focus goes to the first control left
      carrying `sigma-invalid`. */
  method ValidateOnSubmit(controls: seq<Control>) returns (prevented: bool, invalid: seq<bool>, focus: Option<nat>)
    ensures |invalid| == |controls|
    ensures forall k :: 0 <= k < |controls| ==> (invalid[k] <==> InvalidAfter(controls[k]))
    ensures prevented <==> exists k :: 0 <= k < |controls| && controls[k].required && RequiredInvalid(controls[k])
    ensures !prevented ==> focus.None?
    ensures prevented && focus.Some? ==>
      focus.value < |controls| && invalid[focus.value] && forall j :: 0 <= j < focus.value ==> !invalid[j]
    ensures prevented && focus.None? ==> forall k :: 0 <= k < |controls| ==> !invalid[k]
  {
    var isValid := true;
    invalid := [];
    for i := 0 to |controls|
      invariant |invalid| == i
      invariant forall k :: 0 <= k < i ==> (invalid[k] <==> InvalidAfter(controls[k]))
      invariant isValid <==> forall k :: 0 <= k < i ==> !(controls[k].required && RequiredInvalid(controls[k]))
    {
      var c := controls[i];
      var flagged := c.wasInvalid;
      if c.required {
        if AllWhitespace(c.value) {
          flagged := true;
          isValid := false;
        } else {
          flagged := false;
        }
        if c.isEmail && c.value != [] {
          if !IsValidEmail(c.value) {
            flagged := true;
            isValid := false;
          }
        }
      }
      invalid := invalid + [flagged];
    }
    prevented := !isValid;
    focus := None;
    if prevented {
      focus := FirstTrue(invalid);
    }
  }

  /** The first index holding `true`, in document order. */
  function FirstTrue(flags: seq<bool>): (r: Option<nat>)
    ensures r.Some? ==> r.value < |flags| && flags[r.value] && forall j :: 0 <= j < r.value ==> !flags[j]
    ensures r.None? ==> forall k :: 0 <= k < |flags| ==> !flags[k]
  {
    if flags == [] then None
    else
      var front := FirstTrue(flags[..|flags| - 1]);
      if front.Some? then front
      else if flags[|flags| - 1] then Some(|flags| - 1)
      else None
  }

  /** A form without required controls is always submitted, whatever it holds. */
  lemma OptionalControlsNeverBlock(controls: seq<Control>)
    requires forall k :: 0 <= k < |controls| ==> !controls[k].required
    ensures !exists k :: 0 <= k < |controls| && controls[k].required && RequiredInvalid(controls[k])
  {
  }

  /** A required e-mail input padded with spaces keeps the submit from going
      through, unlike the footer's form, which trims first: the pattern is
      applied to the raw value. */
  lemma PaddedEmailRejected(email: string)
    requires IsValidEmail(email)
    ensures RequiredInvalid(Control(" " + email, true, true, false))
  {
    var v := " " + email;
    assert v[0] == ' ';
  }

  // ---------------------------------------------------------------------------
  // JavaScript's parseInt (decimal)

  /** The value of a string of decimal digits. */
  function DigitsValue(d: string): nat
    requires forall k :: 0 <= k < |d| ==> IsDigitChar(d[k])
  {
    if d == [] then 0
    else
      assert IsDigitChar(d[|d| - 1]);
      DigitsValue(d[..|d| - 1]) * 10 + (d[|d| - 1] as int - '0' as int)
  }

  /** The text after an optional leading sign. */
  function Unsigned(t: string): string
  {
    if t != [] && (t[0] == '-' || t[0] == '+') then t[1..] else t
  }

  /** `parseInt(s)`: leading white space, an optional sign, then the longest run
      of decimal digits; `None` (NaN) when there is no digit. */
  function ParseInt(s: string): (r: Option<int>)
    ensures r.None? <==> DigitRun(Unsigned(TrimStart(s))) == []
    ensures r.Some? && TrimStart(s)[0] != '-' ==> r.value == DigitsValue(DigitRun(Unsigned(TrimStart(s))))
    ensures r.Some? && TrimStart(s)[0] == '-' ==> r.value == -(DigitsValue(DigitRun(Unsigned(TrimStart(s)))) as int)
  {
    var t := TrimStart(s);
    var digits := DigitRun(Unsigned(t));
    if digits == [] then None
    else if t[0] == '-' then Some(-(DigitsValue(digits) as int))
    else Some(DigitsValue(digits))
  }

  lemma DigitNotWhitespace(c: char)
    requires IsDigitChar(c)
    ensures !IsWhitespace(c)
  {
  }

  lemma {:induction false} DigitsValueOfNat(n: nat)
    ensures DigitsValue(NatToString(n)) == n
  {
    if n >= 10 {
      var d := NatToString(n);
      var front := NatToString(n / 10);
      assert d == front + [DigitChar(n % 10)];
      assert d[..|d| - 1] == front;
      DigitsValueOfNat(n / 10);
    }
  }

  /** `parseInt` reads back what `toString` renders. */
  lemma ParseIntRoundTrip(n: nat)
    ensures ParseInt(NatToString(n)) == Some(n)
  {
    var d := NatToString(n);
    DigitNotWhitespace(d[0]);
    assert TrimStart(d) == d;
    assert Unsigned(d) == d;
    assert d + [] == d;
    DigitRunOfDigits(d, []);
    DigitsValueOfNat(n);
  }

  // ---------------------------------------------------------------------------
  // File uploads

  /** The first selected file: its size in bytes, its MIME type (possibly
      empty) and its name. */
  datatype FileInfo = FileInfo(size: nat, mimeType: string, name: string)

  /** `parseInt(data-size-limit) || 5`: a missing, unparsable or zero limit
      falls back to 5 (megabytes). */
  function SizeLimit(attr: Option<string>): (r: int)
    ensures r != 0
  {
    var parsed := if attr.Some? then ParseInt(attr.value) else None;
    if parsed.None? || parsed.value == 0 then 5 else parsed.value
  }

  lemma SizeLimitOfNumber(n: nat)
    ensures SizeLimit(Some(NatToString(n))) == if n == 0 then 5 else n
  {
    ParseIntRoundTrip(n);
  }

  /** `file.type || file.name.split('.').pop()`: the MIME type, or else the text
      after the last `.` of the name (the whole name when it has none). */
  function FileType(f: FileInfo): (r: string)
    ensures f.mimeType != [] ==> r == f.mimeType
    ensures f.mimeType == [] ==> '.' !in r
  {
    if f.mimeType != [] then f.mimeType
    else
      var pieces := Split(f.name, '.');
      pieces[|pieces| - 1]
  }

  /** The type test as written: some entry of the comma-separated list, trimmed,
      occurs in the file type. */
  predicate TypeAllowedAsWritten(allowed: string, fileType: string)
  {
    var pieces := Split(allowed, ',');
    exists j :: 0 <= j < |pieces| && Contains(fileType, Trim(pieces[j]))
  }

  /** `Split(s + [c], c)` is the split of `s` with an empty last piece. */
  lemma {:induction false} SplitTrailingSeparator(s: string, c: char)
    ensures Split(s + [c], c) == Split(s, c) + [""]
  {
    if s == [] {
      assert [c][1..] == [];
    } else {
      assert (s + [c])[1..] == s[1..] + [c];
      SplitTrailingSeparator(s[1..], c);
    }
  }

  /** A trailing comma in `data-allowed-types` accepts every file: the empty last
      entry trims to `""`, which every string contains. */
  lemma TrailingCommaAcceptsAll(types: string, fileType: string)
    ensures TypeAllowedAsWritten(types + ",", fileType)
  {
    var pieces := Split(types + ",", ',');
    SplitTrailingSeparator(types, ',');
    var j := |pieces| - 1;
    assert pieces[j] == "";
    assert Trim(pieces[j]) == [] by { TrimEmptyIff(pieces[j]); }
    assert StartsWith(fileType, []);
    assert Contains(fileType, Trim(pieces[j]));
  }

  /** Every entry of the list, trimmed. */
  function TrimAll(pieces: seq<string>): (r: seq<string>)
    ensures |r| == |pieces|
    ensures forall i :: 0 <= i < |pieces| ==> r[i] == Trim(pieces[i])
  {
    seq(|pieces|, i requires 0 <= i < |pieces| => Trim(pieces[i]))
  }

  /** The non-empty entries, in order. */
  function NonEmpty(ts: seq<string>): (r: seq<string>)
    ensures forall i :: 0 <= i < |r| ==> r[i] != []
  {
    if ts == [] then []
    else
      var front := NonEmpty(ts[..|ts| - 1]);
      if ts[|ts| - 1] == [] then front else front + [ts[|ts| - 1]]
  }

  lemma {:induction false} NonEmptyKeep(ts: seq<string>, j: nat)
    requires j < |ts| && ts[j] != []
    ensures ts[j] in NonEmpty(ts)
  {
    var n := |ts| - 1;
    if j < n {
      assert ts[..n][j] == ts[j];
      NonEmptyKeep(ts[..n], j);
    }
  }

  lemma {:induction false} NonEmptySource(ts: seq<string>, t: string)
    requires t in NonEmpty(ts)
    ensures t in ts
  {
    var n := |ts| - 1;
    if t in NonEmpty(ts[..n]) {
      NonEmptySource(ts[..n], t);
      assert ts[..n] <= ts;
    }
  }

  /** The non-blank entries of the list, trimmed, in order. */
  function TrimmedTypes(pieces: seq<string>): (r: seq<string>)
    ensures forall i :: 0 <= i < |r| ==> r[i] != []
  {
    NonEmpty(TrimAll(pieces))
  }

  /** Every non-blank entry is kept, trimmed. */
  lemma TrimmedTypesKeep(pieces: seq<string>, j: nat)
    requires j < |pieces| && Trim(pieces[j]) != []
    ensures Trim(pieces[j]) in TrimmedTypes(pieces)
  {
    NonEmptyKeep(TrimAll(pieces), j);
  }

  /** Every kept type is the trimmed form of some entry. */
  lemma TrimmedTypesSource(pieces: seq<string>, t: string)
    requires t in TrimmedTypes(pieces)
    ensures exists j :: 0 <= j < |pieces| && Trim(pieces[j]) == t
  {
    var ts := TrimAll(pieces);
    NonEmptySource(ts, t);
    var j :| 0 <= j < |ts| && ts[j] == t;
  }

  /** The type test as evidently intended: blank entries are ignored (a list of
      only blank entries restricts nothing, like an empty attribute), and some
      remaining entry must occur in the file type. */
  predicate TypeAllowed(allowed: string, fileType: string)
  {
    var types := TrimmedTypes(Split(allowed, ','));
    types == [] || exists t :: t in types && Contains(fileType, t)
  }

  /** With the correction a trailing comma changes nothing. */
  lemma TrailingCommaIgnored(types: string, fileType: string)
    ensures TypeAllowed(types + ",", fileType) <==> TypeAllowed(types, fileType)
  {
    SplitTrailingSeparator(types, ',');
    var p := Split(types, ',');
    var ts := TrimAll(p + [""]);
    assert ts[..|p|] == TrimAll(p);
    TrimEmptyIff("");
  }

  /** When no entry is blank, the correction agrees with the code as written. */
  lemma CorrectionAgreesWithoutBlanks(allowed: string, fileType: string)
    requires forall j :: 0 <= j < |Split(allowed, ',')| ==> Trim(Split(allowed, ',')[j]) != []
    ensures TypeAllowed(allowed, fileType) <==> TypeAllowedAsWritten(allowed, fileType)
  {
    var pieces := Split(allowed, ',');
    var types := TrimmedTypes(pieces);
    TrimmedTypesKeep(pieces, 0);
    if TypeAllowedAsWritten(allowed, fileType) {
      var j :| 0 <= j < |pieces| && Contains(fileType, Trim(pieces[j]));
      TrimmedTypesKeep(pieces, j);
    }
    if TypeAllowed(allowed, fileType) {
      var t :| t in types && Contains(fileType, t);
      TrimmedTypesSource(pieces, t);
    }
  }

  /** The outcome of the `change` handler: no file, kept, or rejected (with an
      alert, and the input cleared) for its size or its type. */
  datatype FileVerdict = NoFile | Kept | TooLarge | TypeRejected

  /** The `change` handler of `initFileUpload`: the size is checked first, then
      the type when `data-allowed-types` is non-empty. */
  function CheckFile(file: Option<FileInfo>, sizeAttr: Option<string>, typesAttr: Option<string>): (v: FileVerdict)
    ensures v == NoFile <==> file.None?
    ensures v == TooLarge <==> file.Some? && file.value.size > SizeLimit(sizeAttr) * 1024 * 1024
    ensures v == TypeRejected <==>
      file.Some? && file.value.size <= SizeLimit(sizeAttr) * 1024 * 1024
      && Truthy(typesAttr) && !TypeAllowed(typesAttr.value, FileType(file.value))
    ensures v == Kept ==> file.Some? && (Truthy(typesAttr) ==> TypeAllowed(typesAttr.value, FileType(file.value)))
  {
    match file
    case None => NoFile
    case Some(f) =>
      if f.size > SizeLimit(sizeAttr) * 1024 * 1024 then TooLarge
      else if Truthy(typesAttr) && !TypeAllowed(typesAttr.value, FileType(f)) then TypeRejected
      else Kept
  }

  /** The `change` handler exactly as written, with the written type test. */
  function CheckFileAsWritten(file: Option<FileInfo>, sizeAttr: Option<string>, typesAttr: Option<string>): (v: FileVerdict)
    ensures v == NoFile <==> file.None?
    ensures v == TooLarge <==> file.Some? && file.value.size > SizeLimit(sizeAttr) * 1024 * 1024
    ensures v == TypeRejected <==>
      file.Some? && file.value.size <= SizeLimit(sizeAttr) * 1024 * 1024
      && Truthy(typesAttr) && !TypeAllowedAsWritten(typesAttr.value, FileType(file.value))
  {
    match file
    case None => NoFile
    case Some(f) =>
      if f.size > SizeLimit(sizeAttr) * 1024 * 1024 then TooLarge
      else if Truthy(typesAttr) && !TypeAllowedAsWritten(typesAttr.value, FileType(f)) then TypeRejected
      else Kept
  }

  /** As written, a type list with a trailing comma keeps every file within
      the size limit, whatever its type. */
  lemma TrailingCommaKeepsAnyFile(f: FileInfo, sizeAttr: Option<string>, types: string)
    requires f.size <= SizeLimit(sizeAttr) * 1024 * 1024
    ensures CheckFileAsWritten(Some(f), sizeAttr, Some(types + ",")) == Kept
  {
    TrailingCommaAcceptsAll(types, FileType(f));
  }

  /** The corrected test only rejects more: whatever it keeps the written code
      keeps too, and without blank entries in the list the two agree. */
  lemma CheckFileCorrectionOnlyRejects(file: Option<FileInfo>, sizeAttr: Option<string>, typesAttr: Option<string>)
    ensures CheckFile(file, sizeAttr, typesAttr) != CheckFileAsWritten(file, sizeAttr, typesAttr)
        ==> CheckFile(file, sizeAttr, typesAttr) == TypeRejected && CheckFileAsWritten(file, sizeAttr, typesAttr) == Kept
    ensures Truthy(typesAttr) && (forall j :: 0 <= j < |Split(typesAttr.value, ',')| ==> Trim(Split(typesAttr.value, ',')[j]) != [])
        ==> CheckFile(file, sizeAttr, typesAttr) == CheckFileAsWritten(file, sizeAttr, typesAttr)
  {
    if file.Some? && Truthy(typesAttr) {
      var t := FileType(file.value);
      CorrectedTypeImpliesWritten(typesAttr.value, t);
      if forall j :: 0 <= j < |Split(typesAttr.value, ',')| ==> Trim(Split(typesAttr.value, ',')[j]) != [] {
        CorrectionAgreesWithoutBlanks(typesAttr.value, t);
      }
    }
  }

  /** A type the corrected test allows is allowed by the written test. */
  lemma CorrectedTypeImpliesWritten(allowed: string, fileType: string)
    ensures TypeAllowed(allowed, fileType) ==> TypeAllowedAsWritten(allowed, fileType)
  {
    var pieces := Split(allowed, ',');
    var types := TrimmedTypes(pieces);
    if types == [] {
      if Trim(pieces[0]) != [] {
        TrimmedTypesKeep(pieces, 0);
      }
      assert StartsWith(fileType, []);
      assert Contains(fileType, Trim(pieces[0]));
    } else if TypeAllowed(allowed, fileType) {
      var t :| t in types && Contains(fileType, t);
      TrimmedTypesSource(pieces, t);
    }
  }

  /** Without a size attribute, a file of exactly 5 MB is kept and one byte more is too large. */
  lemma DefaultLimitBoundary(mimeType: string, name: string)
    ensures CheckFile(Some(FileInfo(5 * 1024 * 1024, mimeType, name)), None, None) == Kept
    ensures CheckFile(Some(FileInfo(5 * 1024 * 1024 + 1, mimeType, name)), None, None) == TooLarge
  {
  }

  // ---------------------------------------------------------------------------
  // Auto-save

  /** The kinds of control the auto-save tells apart: password inputs are
      never written or restored, and a file input rejects a non-empty value. */
  datatype Kind = Plain | Password | FileInput

  /** A control of an auto-saved form: its `name` (empty when it has none) and
      its kind. */
  datatype Field = Field(name: string, kind: Kind)

  /** `form.id || 'sigma-form-' + Date.now()`, with the clock as input. */
  function FormId(id: string, now: nat): (r: string)
    ensures r != []
  {
    if id != [] then id else "sigma-form-" + NatToString(now)
  }

  /** The store key of a control: `formId + '-' + name`. */
  function Key(formId: string, name: string): (k: string)
    ensures |k| == |formId| + 1 + |name|
  {
    formId + "-" + name
  }

  /** Within one form, different names have different keys. */
  lemma KeyInjective(formId: string, a: string, b: string)
    requires Key(formId, a) == Key(formId, b)
    ensures a == b
  {
    var p := |formId| + 1;
    assert Key(formId, a)[p..] == a;
    assert Key(formId, b)[p..] == b;
  }

  /** Only named, non-password controls are saved. */
  predicate Saved(f: Field)
  {
    f.name != [] && f.kind != Password
  }

  /** The store after the debounced save: each saved control in turn writes its value. */
  function SaveAll(store: map<string, string>, formId: string, fields: seq<Field>, values: seq<string>): map<string, string>
    requires |values| == |fields|
  {
    if fields == [] then store
    else
      var n := |fields| - 1;
      var s := SaveAll(store, formId, fields[..n], values[..n]);
      if Saved(fields[n]) then s[Key(formId, fields[n].name) := values[n]] else s
  }

  /** The keys the submit handler removes: those of every named control,
      passwords included. */
  function NamedKeys(formId: string, fields: seq<Field>): set<string>
  {
    set k | 0 <= k < |fields| && fields[k].name != [] :: Key(formId, fields[k].name)
  }

  /** The value a control gets when the form loads: a truthy saved value, except
      for password inputs. */
  function Restored(store: map<string, string>, formId: string, f: Field, current: string): string
  {
    var key := Key(formId, f.name);
    if key in store && store[key] != [] && f.kind != Password then store[key] else current
  }

  /** Loading throws at a file input that has a truthy saved value: the loop
      assigns it to `input.value`, which a file input refuses unless empty. */
  predicate LoadThrows(store: map<string, string>, formId: string, f: Field)
  {
    var key := Key(formId, f.name);
    f.kind == FileInput && key in store && store[key] != []
  }

  /** The position of the first control at which loading throws, or the
      number of controls when none does. */
  function FirstThrow(store: map<string, string>, formId: string, fields: seq<Field>): (r: nat)
    ensures r <= |fields|
    ensures forall k :: 0 <= k < r ==> !LoadThrows(store, formId, fields[k])
    ensures r < |fields| ==> LoadThrows(store, formId, fields[r])
  {
    if fields == [] then 0
    else if LoadThrows(store, formId, fields[0]) then 0
    else
      var r := 1 + FirstThrow(store, formId, fields[1..]);
      assert forall k :: 1 <= k < |fields| ==> fields[k] == fields[1..][k - 1];
      r
  }

  /** Keys no saved control writes are left as they were; in particular no
      password value is ever written. */
  lemma {:induction false} SaveAllFrame(store: map<string, string>, formId: string, fields: seq<Field>, values: seq<string>, key: string)
    requires |values| == |fields|
    requires forall k :: 0 <= k < |fields| && Saved(fields[k]) ==> Key(formId, fields[k].name) != key
    ensures key in SaveAll(store, formId, fields, values) <==> key in store
    ensures key in store ==> SaveAll(store, formId, fields, values)[key] == store[key]
  {
    if fields != [] {
      var n := |fields| - 1;
      assert forall k :: 0 <= k < n ==> fields[..n][k] == fields[k];
      SaveAllFrame(store, formId, fields[..n], values[..n], key);
    }
  }

  /** With distinct names, each saved control's key holds its value afterwards. */
  lemma {:induction false} SaveAllStores(store: map<string, string>, formId: string, fields: seq<Field>, values: seq<string>, k: nat)
    requires |values| == |fields| && k < |fields| && Saved(fields[k])
    requires forall i, j :: 0 <= i < j < |fields| ==> fields[i].name != fields[j].name
    ensures Key(formId, fields[k].name) in SaveAll(store, formId, fields, values)
    ensures SaveAll(store, formId, fields, values)[Key(formId, fields[k].name)] == values[k]
  {
    var n := |fields| - 1;
    var s := SaveAll(store, formId, fields[..n], values[..n]);
    if k < n {
      SaveAllStores(store, formId, fields[..n], values[..n], k);
      if Saved(fields[n]) && Key(formId, fields[n].name) == Key(formId, fields[k].name) {
        KeyInjective(formId, fields[n].name, fields[k].name);
      }
    }
  }

  /** Saving and then reloading the page (any current values) gives each saved,
      non-empty value back to its control, provided names are distinct. */
  lemma AutoSaveRoundTrip(store: map<string, string>, formId: string, fields: seq<Field>, values: seq<string>, k: nat, current: string)
    requires |values| == |fields| && k < |fields| && Saved(fields[k]) && values[k] != []
    requires forall i, j :: 0 <= i < j < |fields| ==> fields[i].name != fields[j].name
    ensures Restored(SaveAll(store, formId, fields, values), formId, fields[k], current) == values[k]
    ensures LoadThrows(SaveAll(store, formId, fields, values), formId, fields[k]) <==> fields[k].kind == FileInput
  {
    SaveAllStores(store, formId, fields, values, k);
  }

  /** As written, once a file was chosen in a named file input and saved, every
      later load of the form throws at that control or before it: the controls
      from there on are never restored. */
  lemma SavedFileInputThrows(store: map<string, string>, formId: string, fields: seq<Field>, values: seq<string>, k: nat)
    requires |values| == |fields| && k < |fields| && values[k] != []
    requires fields[k].name != [] && fields[k].kind == FileInput
    requires forall i, j :: 0 <= i < j < |fields| ==> fields[i].name != fields[j].name
    ensures FirstThrow(SaveAll(store, formId, fields, values), formId, fields) <= k
  {
    SaveAllStores(store, formId, fields, values, k);
  }

  /** Texts that agree along a separator-free head followed by the separator
      have equal heads. */
  lemma HeadBeforeSeparator(a: string, x: string, b: string, y: string, c: char)
    requires c !in a && c !in b && a + [c] + x == b + [c] + y
    ensures a == b
  {
    var l, r := a + [c] + x, b + [c] + y;
    var m := if |a| <= |b| then |a| else |b|;
    assert l[m] == c <==> m == |a|;
    assert r[m] == c <==> m == |b|;
    assert a == l[..|a|] && b == r[..|b|];
  }

  /** Two loads at different times give an id-less form keys that never meet. */
  lemma IdlessKeysDiffer(t1: nat, t2: nat, x: string, y: string)
    requires t1 != t2
    ensures Key(FormId("", t1), x) != Key(FormId("", t2), y)
  {
    var p := "sigma-form-";
    var n1, n2 := NatToString(t1), NatToString(t2);
    var u, v := n1 + "-" + x, n2 + "-" + y;
    assert Key(FormId("", t1), x) == p + u;
    assert Key(FormId("", t2), y) == p + v;
    if p + u == p + v {
      assert u == (p + u)[|p|..] && v == (p + v)[|p|..];
      assert '-' !in n1 && '-' !in n2;
      HeadBeforeSeparator(n1, x, n2, y, '-');
      NatToStringInjective(t1, t2);
    }
  }

  /** As written, a form without an `id` is keyed by the load time, so what
      one load saved is never restored by a later load: every field comes
      back with the value the page gave it. */
  lemma IdlessFormForgets(store: map<string, string>, fields: seq<Field>, values: seq<string>,
                          k: nat, current: string, t1: nat, t2: nat)
    requires |values| == |fields| && k < |fields| && t1 != t2
    requires Key(FormId("", t2), fields[k].name) !in store
    ensures Restored(SaveAll(store, FormId("", t1), fields, values), FormId("", t2), fields[k], current) == current
  {
    var key := Key(FormId("", t2), fields[k].name);
    forall j | 0 <= j < |fields| && Saved(fields[j])
      ensures Key(FormId("", t1), fields[j].name) != key
    {
      IdlessKeysDiffer(t1, t2, fields[j].name, fields[k].name);
    }
    SaveAllFrame(store, FormId("", t1), fields, values, key);
  }

  /** The auto-save state of one form: its fields, their values, and the
      (`localStorage`) store. */
  class AutoSaveForm {
    const formId: string
    const fields: seq<Field>
    var values: seq<string>
    var store: map<string, string>

    ghost predicate Valid()
      reads this
    {
      |values| == |fields|
    }

    constructor (formId: string, fields: seq<Field>, values: seq<string>, store: map<string, string>)
      requires |values| == |fields|
      ensures Valid() && this.formId == formId && this.fields == fields && this.values == values && this.store == store
    {
      this.formId, this.fields, this.values, this.store := formId, fields, values, store;
    }

    /** "Load saved data": each control in turn takes its truthy saved value,
        unless it is a password input. At a file input with a saved value the
        assignment throws: loading stops there, `threw` is set, and the
        controls from that one on keep their values. */
    method LoadSaved() returns (threw: bool)
      requires Valid()
      modifies this`values
      ensures Valid()
      ensures threw <==> FirstThrow(store, formId, fields) < |fields|
      ensures forall k :: 0 <= k < |fields| ==>
        values[k] == if k < FirstThrow(store, formId, fields) then Restored(store, formId, fields[k], old(values)[k]) else old(values)[k]
    {
      ghost var stop := FirstThrow(store, formId, fields);
      var i := 0;
      while i < |fields|
        invariant i <= stop && |values| == |fields|
        invariant forall k :: 0 <= k < i ==> values[k] == Restored(store, formId, fields[k], old(values)[k])
        invariant forall k :: i <= k < |fields| ==> values[k] == old(values)[k]
      {
        var key := Key(formId, fields[i].name);
        if key in store && store[key] != [] && fields[i].kind != Password {
          if fields[i].kind == FileInput {
            return true;
          }
          values := values[i := store[key]];
        }
        i := i + 1;
      }
      return false;
    }

    /** The load as it evidently should behave: file inputs are skipped and
        every other control takes `Restored`, so loading never stops early. */
    method LoadSavedSkippingFiles()
      requires Valid()
      modifies this`values
      ensures Valid()
      ensures forall k :: 0 <= k < |fields| ==>
        values[k] == if fields[k].kind == FileInput then old(values)[k] else Restored(store, formId, fields[k], old(values)[k])
    {
      for i := 0 to |fields|
        invariant |values| == |fields|
        invariant forall k :: 0 <= k < i ==>
          values[k] == if fields[k].kind == FileInput then old(values)[k] else Restored(store, formId, fields[k], old(values)[k])
        invariant forall k :: i <= k < |fields| ==> values[k] == old(values)[k]
      {
        var key := Key(formId, fields[i].name);
        if key in store && store[key] != [] && fields[i].kind == Plain {
          values := values[i := store[key]];
        }
      }
    }

    /** The debounced `saveData`: writes every named, non-password control. */
    method SaveData()
      requires Valid()
      modifies this`store
      ensures store == SaveAll(old(store), formId, fields, values)
    {
      for i := 0 to |fields|
        invariant store == SaveAll(old(store), formId, fields[..i], values[..i])
      {
        assert fields[..i + 1][..i] == fields[..i];
        assert values[..i + 1][..i] == values[..i];
        if fields[i].name != [] && fields[i].kind != Password {
          store := store[Key(formId, fields[i].name) := values[i]];
        }
      }
      assert fields[..|fields|] == fields;
      assert values[..|values|] == values;
    }

    /** The submit handler: removes the key of every named control and nothing else. */
    method ClearSaved()
      requires Valid()
      modifies this`store
      ensures store == old(store) - NamedKeys(formId, fields)
      ensures forall k :: 0 <= k < |fields| && fields[k].name != [] ==> Key(formId, fields[k].name) !in store
    {
      for i := 0 to |fields|
        invariant store == old(store) - NamedKeys(formId, fields[..i])
      {
        assert NamedKeys(formId, fields[..i + 1]) ==
          NamedKeys(formId, fields[..i]) + (if fields[i].name != [] then {Key(formId, fields[i].name)} else {}) by {
          assert forall k :: 0 <= k < i ==> fields[..i + 1][k] == fields[..i][k];
        }
        if fields[i].name != [] {
          store := store - {Key(formId, fields[i].name)};
        }
      }
      assert fields[..|fields|] == fields;
    }

    /** A submit of a form carrying both `data-sigma-validate` and
        `data-sigma-autosave`: the validation listener may prevent the submit,
        but the auto-save listener is a listener of its own and clears the
        saved values either way. */
    method SubmitAsWritten(controls: seq<Control>) returns (prevented: bool)
      requires Valid()
      modifies this`store
      ensures prevented <==> exists k :: 0 <= k < |controls| && controls[k].required && RequiredInvalid(controls[k])
      ensures store == old(store) - NamedKeys(formId, fields)
    {
      var invalid, focus;
      prevented, invalid, focus := ValidateOnSubmit(controls);
      ClearSaved();
    }

    /** The submit as the clearing handler describes itself ("on successful
        submit"): the saved values go only when the submit is not prevented. */
    method Submit(controls: seq<Control>) returns (prevented: bool)
      requires Valid()
      modifies this`store
      ensures prevented <==> exists k :: 0 <= k < |controls| && controls[k].required && RequiredInvalid(controls[k])
      ensures store == if prevented then old(store) else old(store) - NamedKeys(formId, fields)
    {
      var invalid, focus;
      prevented, invalid, focus := ValidateOnSubmit(controls);
      if !prevented {
        ClearSaved();
      }
    }
  }
}
