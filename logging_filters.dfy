/** The log-record filters: body trimming and secret masking. The regular
    expression that masks `key=value` pairs inside strings is outside the
    model: it is the substitution function a mask filter is built with. */
module LoggingFilters {
  import opened Common

  /** A Python value carried by a log record. Dictionary keys are strings;
      `POther` stands for any other object (an exception, a model
      instance, ...), which the filters pass through unchanged. */
  datatype PyObj =
    | PNone
    | PBool(b: bool)
    | PInt(i: int)
    | PStr(s: string)
    | PList(items: seq<PyObj>)
    | PTuple(items: seq<PyObj>)
    | PDict(entries: seq<Entry>)
    | POther(id: nat)

  datatype Entry = Entry(key: string, value: PyObj)

  /** `record.args`: the positional arguments, or the one non-empty mapping
      the logging module unwraps from a call like `log.info(fmt, {...})`. */
  datatype Args = TupleArgs(items: seq<PyObj>) | MappingArgs(entries: seq<Entry>)

  predicate ArgsTruthy(a: Args) {
    match a
    case TupleArgs(xs) => xs != []
    case MappingArgs(es) => es != []
  }

  /** A log record, as the filters see and rewrite it. `extra` is `None`
      when the record has no such attribute. */
  class LogRecord {
    var msg: PyObj
    var args: Args
    var extra: Option<PyObj>

    constructor (msg: PyObj, args: Args, extra: Option<PyObj>)
      ensures this.msg == msg && this.args == args && this.extra == extra
    {
      this.msg, this.args, this.extra := msg, args, extra;
    }
  }

  /** Python's `str(o)`; objects with their own `__str__` are rendered by `other`. */
  function Str(o: PyObj, other: PyObj -> string): string {
    match o
    case PNone => "None"
    case PBool(b) => if b then "True" else "False"
    case PInt(i) => IntToString(i)
    case PStr(s) => s
    case _ => other(o)
  }

  // ---------------------------------------------------------------- TrimBodyFilter

  const DEFAULT_MAX_LENGTH: int := 2000

  /** The third positional argument (the body in the request log lines) is
      replaced by the first `maxLength` characters of its `str`; a mapping
      is left alone. */
  function TrimArgs(a: Args, maxLength: int, other: PyObj -> string): Args {
    match a
    case MappingArgs(_) => a
    case TupleArgs(xs) =>
      TupleArgs(seq(|xs|, i requires 0 <= i < |xs| => if i == 2 then PStr(Prefix(Str(xs[i], other), maxLength)) else xs[i]))
  }

  class TrimBodyFilter {
    const maxLength: int

    constructor (maxLength: int)
      ensures this.maxLength == maxLength
    {
      this.maxLength := maxLength;
    }

    /** `filter(record)`: never drops the record. */
    method Filter(record: LogRecord, other: PyObj -> string) returns (keep: bool)
      modifies record
      ensures keep
      ensures record.args == TrimArgs(old(record.args), maxLength, other)
      ensures record.msg == old(record.msg) && record.extra == old(record.extra)
    {
      record.args := TrimArgs(record.args, maxLength, other);
      return true;
    }
  }

  /** Only the argument at index 2 of a tuple changes; it becomes the first
      `maxLength` characters of its text (a negative length counts from the
      end, as Python slicing does). */
  lemma TrimOnlyThird(xs: seq<PyObj>, maxLength: int, other: PyObj -> string)
    ensures var r := TrimArgs(TupleArgs(xs), maxLength, other);
      && r.TupleArgs? && |r.items| == |xs|
      && (forall i :: 0 <= i < |xs| && i != 2 ==> r.items[i] == xs[i])
      && (|xs| > 2 ==> r.items[2].PStr? && r.items[2].s <= Str(xs[2], other))
      && (|xs| > 2 && maxLength >= 0 ==>
            |r.items[2].s| == if |Str(xs[2], other)| < maxLength then |Str(xs[2], other)| else maxLength)
  {
  }

  /** Trimming with a non-negative length a second time changes nothing. */
  lemma TrimIdempotent(a: Args, maxLength: int, other: PyObj -> string)
    requires maxLength >= 0
    ensures TrimArgs(TrimArgs(a, maxLength, other), maxLength, other) == TrimArgs(a, maxLength, other)
  {
    if a.TupleArgs? && |a.items| > 2 {
      var once := TrimArgs(a, maxLength, other);
      var twice := TrimArgs(once, maxLength, other);
      assert twice.items[2] == once.items[2];
      assert twice.items == once.items;
    }
  }

  /** A negative length is not idempotent: each pass drops more characters. */
  lemma TrimNegativeShrinks(s: string, other: PyObj -> string)
    requires |s| >= 2
    ensures var a := TupleArgs([PNone, PNone, PStr(s)]);
      |TrimArgs(TrimArgs(a, -1, other), -1, other).items[2].s| == |s| - 2
  {
  }

  // ---------------------------------------------------------------- MaskSecretsFilter

  const DEFAULT_SECRET_KEYS: seq<string> := ["password", "passwd", "pwd", "token", "access_token",
    "refresh_token", "secret", "api_key", "authorization"]
  const DEFAULT_MASK: string := "******"
  const ELLIPSIS: string := "…"

  /** `{s.lower() for s in (secrets or DEFAULT_SECRET_KEYS)}`: an absent or
      empty collection selects the defaults. */
  function SecretSet(secrets: Option<seq<string>>): set<string> {
    var source := if secrets.None? || secrets.value == [] then DEFAULT_SECRET_KEYS else secrets.value;
    set k | 0 <= k < |source| :: Lower(source[k])
  }

  /** A mask filter's settings. `substitute` is `_pair_re.sub(r'\1' + mask, ·)`
      for the pattern compiled from the secret names. */
  datatype MaskConfig = MaskConfig(secrets: set<string>, mask: string, maxLen: Option<int>, substitute: string -> string)

  /** `_mask_str`: the pair substitution, then, when `max_len` is set and
      non-zero, a longer text is cut to `max_len` characters and an ellipsis. */
  function MaskStr(text: string, c: MaskConfig): string {
    var t := c.substitute(text);
    if c.maxLen.Some? && c.maxLen.value != 0 && |t| > c.maxLen.value then Prefix(t, c.maxLen.value) + ELLIPSIS
    else t
  }

  /** `_mask_obj`: a dictionary value under a secret key (compared in lower
      case) becomes the mask, other values are masked recursively; lists and
      tuples are masked element-wise and keep their type; strings go through
      `_mask_str`; anything else is returned as it is. */
  function MaskObj(o: PyObj, c: MaskConfig): PyObj
    decreases o
  {
    match o
    case PDict(es) => PDict(MaskEntries(es, c))
    case PList(xs) => PList(seq(|xs|, i requires 0 <= i < |xs| => MaskObj(xs[i], c)))
    case PTuple(xs) => PTuple(seq(|xs|, i requires 0 <= i < |xs| => MaskObj(xs[i], c)))
    case PStr(s) => PStr(MaskStr(s, c))
    case _ => o
  }

  /** The dictionary comprehension of `_mask_obj`. */
  function MaskEntries(es: seq<Entry>, c: MaskConfig): seq<Entry>
    decreases es
  {
    seq(|es|, i requires 0 <= i < |es| =>
      Entry(es[i].key, if Lower(es[i].key) in c.secrets then PStr(c.mask) else MaskObj(es[i].value, c)))
  }

  /** No secret survives at any depth: every dictionary entry under a
      secret key holds exactly the mask. */
  predicate Masked(o: PyObj, secrets: set<string>, mask: string)
    decreases o
  {
    match o
    case PDict(es) => EntriesMasked(es, secrets, mask)
    case PList(xs) => forall i :: 0 <= i < |xs| ==> Masked(xs[i], secrets, mask)
    case PTuple(xs) => forall i :: 0 <= i < |xs| ==> Masked(xs[i], secrets, mask)
    case _ => true
  }

  predicate EntriesMasked(es: seq<Entry>, secrets: set<string>, mask: string)
    decreases es
  {
    forall i :: 0 <= i < |es| ==>
      if Lower(es[i].key) in secrets then es[i].value == PStr(mask) else Masked(es[i].value, secrets, mask)
  }

  /** Whatever the input, `_mask_obj`'s result hides every secret value. */
  lemma {:induction false} MaskObjMasks(o: PyObj, c: MaskConfig)
    ensures Masked(MaskObj(o, c), c.secrets, c.mask)
    decreases o
  {
    match o
    case PDict(es) => MaskEntriesMask(es, c);
    case PList(xs) =>
      forall i | 0 <= i < |xs| ensures Masked(MaskObj(xs[i], c), c.secrets, c.mask) {
        MaskObjMasks(xs[i], c);
      }
    case PTuple(xs) =>
      forall i | 0 <= i < |xs| ensures Masked(MaskObj(xs[i], c), c.secrets, c.mask) {
        MaskObjMasks(xs[i], c);
      }
    case _ =>
  }

  lemma {:induction false} MaskEntriesMask(es: seq<Entry>, c: MaskConfig)
    ensures EntriesMasked(MaskEntries(es, c), c.secrets, c.mask)
    decreases es
  {
    var r := MaskEntries(es, c);
    forall i | 0 <= i < |es| && Lower(es[i].key) !in c.secrets
      ensures Masked(r[i].value, c.secrets, c.mask)
    {
      MaskObjMasks(es[i].value, c);
    }
  }

  /** `_mask_obj` keeps the shape: the same kind of value, the same length,
      the same keys in the same order; values that are neither containers
      nor strings are returned unchanged. */
  lemma MaskObjShape(o: PyObj, c: MaskConfig)
    ensures var r := MaskObj(o, c);
      && (o.PList? <==> r.PList?) && (o.PTuple? <==> r.PTuple?) && (o.PDict? <==> r.PDict?)
      && (o.PStr? <==> r.PStr?)
      && ((o.PList? || o.PTuple?) ==> |r.items| == |o.items|)
      && (o.PDict? ==>
            |r.entries| == |o.entries| &&
            forall i :: 0 <= i < |o.entries| ==> r.entries[i].key == o.entries[i].key)
      && (!(o.PList? || o.PTuple? || o.PDict? || o.PStr?) ==> r == o)
  {
  }

  /** With a positive cap the masked text is at most one character longer
      than the cap, and a text within the cap is not cut. */
  lemma MaskStrCapped(text: string, c: MaskConfig)
    requires c.maxLen.Some? && c.maxLen.value > 0
    ensures |MaskStr(text, c)| <= c.maxLen.value + 1
    ensures |c.substitute(text)| <= c.maxLen.value ==> MaskStr(text, c) == c.substitute(text)
    ensures |c.substitute(text)| > c.maxLen.value ==>
      MaskStr(text, c) == c.substitute(text)[..c.maxLen.value] + ELLIPSIS
  {
  }

  /** Without a cap (or with cap 0) only the substitution applies. */
  lemma MaskStrUncapped(text: string, c: MaskConfig)
    requires c.maxLen.None? || c.maxLen.value == 0
    ensures MaskStr(text, c) == c.substitute(text)
  {
  }

  /** Secret names are stored in lower case, so a key matches in any case. */
  lemma SecretSetLowered(secrets: Option<seq<string>>)
    ensures forall k :: k in SecretSet(secrets) ==> Lower(k) == k
  {
    forall k | k in SecretSet(secrets) ensures Lower(k) == k {
      var source := if secrets.None? || secrets.value == [] then DEFAULT_SECRET_KEYS else secrets.value;
      var j :| 0 <= j < |source| && k == Lower(source[j]);
      LowerIdempotent(source[j]);
    }
  }

  lemma LowerIdempotent(s: string)
    ensures Lower(Lower(s)) == Lower(s)
  {
    var once := Lower(s);
    var twice := Lower(once);
    assert forall k :: 0 <= k < |s| ==> twice[k] == LowerChar(LowerChar(s[k])) == once[k];
  }

  /** Without configured names the nine default secret names are used. */
  lemma DefaultSecrets()
    ensures SecretSet(None) == SecretSet(Some([]))
    ensures forall k :: 0 <= k < |DEFAULT_SECRET_KEYS| ==> DEFAULT_SECRET_KEYS[k] in SecretSet(None)
    ensures forall x :: x in SecretSet(None) ==> x in DEFAULT_SECRET_KEYS
    ensures |DEFAULT_SECRET_KEYS| == 9
  {
    forall k | 0 <= k < |DEFAULT_SECRET_KEYS| ensures Lower(DEFAULT_SECRET_KEYS[k]) == DEFAULT_SECRET_KEYS[k] {
      var key := DEFAULT_SECRET_KEYS[k];
      forall m | 0 <= m < |key| ensures LowerChar(key[m]) == key[m] {
        assert key[m] == '_' || 'a' <= key[m] <= 'z';
      }
    }
  }

  // ---------------------------------------------------------------- filter

  /** `record.args = tuple(self._mask_obj(a) for a in record.args)` as
      written: iterating a mapping yields its keys, so mapping arguments
      become a tuple of the masked key names and the values are dropped. */
  function MaskArgsAsWritten(a: Args, c: MaskConfig): Args {
    match a
    case TupleArgs(xs) => TupleArgs(seq(|xs|, i requires 0 <= i < |xs| => MaskObj(xs[i], c)))
    case MappingArgs(es) => TupleArgs(seq(|es|, i requires 0 <= i < |es| => MaskObj(PStr(es[i].key), c)))
  }

  /** The masking the filter evidently intends: positional arguments one by
      one, a mapping the way `_mask_obj` masks a dictionary. */
  function MaskArgs(a: Args, c: MaskConfig): Args {
    match a
    case TupleArgs(xs) => TupleArgs(seq(|xs|, i requires 0 <= i < |xs| => MaskObj(xs[i], c)))
    case MappingArgs(es) => MappingArgs(MaskEntries(es, c))
  }

  /** As written, a mapping argument such as `{'user': v}` comes out as the
      tuple `(mask_str('user'),)`: `%(user)s` in the message then has no
      mapping to read, and `v` is gone. */
  lemma MappingArgsLost(key: string, v: PyObj, c: MaskConfig)
    ensures MaskArgsAsWritten(MappingArgs([Entry(key, v)]), c) == TupleArgs([PStr(MaskStr(key, c))])
    ensures MaskArgs(MappingArgs([Entry(key, v)]), c).MappingArgs?
  {
    var r := MaskArgsAsWritten(MappingArgs([Entry(key, v)]), c);
    assert r.items == [PStr(MaskStr(key, c))];
  }

  /** For every input, the filter as written always leaves a tuple: the
      positional arguments masked one by one, or, for a mapping, one masked
      key name per entry in the mapping's order, and none of its values. */
  lemma {:induction false} MaskArgsAsWrittenTuple(a: Args, c: MaskConfig)
    ensures var r := MaskArgsAsWritten(a, c);
      && r.TupleArgs?
      && (a.TupleArgs? ==>
            && |r.items| == |a.items|
            && forall i :: 0 <= i < |r.items| ==> Masked(r.items[i], c.secrets, c.mask))
      && (a.MappingArgs? ==>
            && |r.items| == |a.entries|
            && forall i :: 0 <= i < |a.entries| ==> r.items[i] == PStr(MaskStr(a.entries[i].key, c)))
  {
    match a
    case TupleArgs(xs) =>
      forall i | 0 <= i < |xs| ensures Masked(MaskObj(xs[i], c), c.secrets, c.mask) {
        MaskObjMasks(xs[i], c);
      }
    case MappingArgs(es) =>
  }

  /** The intended masking keeps the arguments' shape (a tuple of the same
      length, a mapping with the same keys in the same order) and leaves no
      secret value in them. */
  lemma MaskArgsMasked(a: Args, c: MaskConfig)
    ensures var r := MaskArgs(a, c);
      && (a.TupleArgs? ==>
            && r.TupleArgs? && |r.items| == |a.items|
            && forall i :: 0 <= i < |r.items| ==> Masked(r.items[i], c.secrets, c.mask))
      && (a.MappingArgs? ==>
            && r.MappingArgs? && |r.entries| == |a.entries|
            && (forall i :: 0 <= i < |a.entries| ==> r.entries[i].key == a.entries[i].key)
            && EntriesMasked(r.entries, c.secrets, c.mask))
  {
    match a
    case TupleArgs(xs) =>
      forall i | 0 <= i < |xs| ensures Masked(MaskObj(xs[i], c), c.secrets, c.mask) {
        MaskObjMasks(xs[i], c);
      }
    case MappingArgs(es) => MaskEntriesMask(es, c);
  }

  class MaskSecretsFilter {
    const config: MaskConfig

    /** `MaskSecretsFilter(secrets, mask, max_len)`; `substitute` is the
        substitution with the pattern built from the secret names. */
    constructor (secrets: Option<seq<string>>, mask: string, maxLen: Option<int>, substitute: string -> string)
      ensures config.secrets == SecretSet(secrets) && config.mask == mask && config.maxLen == maxLen
      ensures config.substitute == substitute
    {
      config := MaskConfig(SecretSet(secrets), mask, maxLen, substitute);
    }

    /** `filter(record)` as written: a string message, truthy arguments and
        a dictionary `extra` are masked; the record is never dropped. A
        mapping argument becomes the tuple of its masked key names. */
    method Filter(record: LogRecord) returns (keep: bool)
      modifies record
      ensures keep
      ensures record.msg == if old(record.msg).PStr? then PStr(MaskStr(old(record.msg).s, config)) else old(record.msg)
      ensures record.args == if ArgsTruthy(old(record.args)) then MaskArgsAsWritten(old(record.args), config) else old(record.args)
      ensures record.extra ==
        if old(record.extra).Some? && old(record.extra).value.PDict? then Some(MaskObj(old(record.extra).value, config))
        else old(record.extra)
    {
      if record.msg.PStr? {
        record.msg := PStr(MaskStr(record.msg.s, config));
      }
      if ArgsTruthy(record.args) {
        record.args := MaskArgsAsWritten(record.args, config);
      }
      if record.extra.Some? && record.extra.value.PDict? {
        record.extra := Some(MaskObj(record.extra.value, config));
      }
      return true;
    }

    /** The filter with the intended argument masking: a mapping argument
        keeps its keys and has its values masked. */
    method FilterCorrected(record: LogRecord) returns (keep: bool)
      modifies record
      ensures keep
      ensures record.msg == if old(record.msg).PStr? then PStr(MaskStr(old(record.msg).s, config)) else old(record.msg)
      ensures record.args == if ArgsTruthy(old(record.args)) then MaskArgs(old(record.args), config) else old(record.args)
      ensures record.extra ==
        if old(record.extra).Some? && old(record.extra).value.PDict? then Some(MaskObj(old(record.extra).value, config))
        else old(record.extra)
    {
      if record.msg.PStr? {
        record.msg := PStr(MaskStr(record.msg.s, config));
      }
      if ArgsTruthy(record.args) {
        record.args := MaskArgs(record.args, config);
      }
      if record.extra.Some? && record.extra.value.PDict? {
        record.extra := Some(MaskObj(record.extra.value, config));
      }
      return true;
    }
  }
}
