/**
 * Ticket statuses: the free-text normaliser every view filters with, the four
 * statuses the tables have columns for, and the precedence pending tickets are
 * ordered by.
 */
module TicketStatus {
  import opened JsText

  /** The four statuses with columns, in the component's `statusOrder`. */
  datatype CoreStatus = Open | Hold | InProgress | Escalated {

    /** The canonical key, also the prefix of the aging-count field names. */
    function Key(): string {
      match this
      case Open => "open"
      case Hold => "hold"
      case InProgress => "inProgress"
      case Escalated => "escalated"
    }
  }

  const StatusOrder: seq<CoreStatus> := [Open, Hold, InProgress, Escalated]

  /** The characters `normalizeStatus` deletes: `[\s\-_]`. */
  predicate IsSeparator(c: char) {
    IsJsSpace(c) || c == '-' || c == '_'
  }

  function StripSeparators(s: string): string {
    if s == [] then []
    else (if IsSeparator(s[0]) then [] else [s[0]]) + StripSeparators(s[1..])
  }

  /** What the status text is compared as: separators removed, then lower-cased. */
  function Key(text: string): string {
    Lower(StripSeparators(text))
  }

  /** `normalizeStatus`: canonical key for the known spellings, the stripped lower-cased text otherwise. */
  function Normalize(text: string): (r: string)
    ensures text == "" ==> r == ""
    ensures forall i :: 0 <= i < |r| ==> !IsSeparator(r[i])
    ensures r == "inProgress" || Lower(r) == r
  {
    if text == "" then ""
    else
      var t := Key(text);
      KeyHasNoSeparators(text);
      LowerIdempotent(StripSeparators(text));
      if t == "hold" || t == "onhold" then "hold"
      else if t == "inprogress" || t == "in-progress" || t == "in_progress" then "inProgress"
      else if t == "open" then "open"
      else if t == "escalated" then "escalated"
      else t
  }

  lemma {:induction false} StripRemovesSeparators(s: string)
    ensures forall i :: 0 <= i < |StripSeparators(s)| ==> !IsSeparator(StripSeparators(s)[i])
  {
    if s != [] {
      StripRemovesSeparators(s[1..]);
    }
  }

  lemma KeyHasNoSeparators(text: string)
    ensures forall i :: 0 <= i < |Key(text)| ==> !IsSeparator(Key(text)[i])
  {
    StripRemovesSeparators(text);
  }

  lemma StripWithoutSeparators(s: string)
    requires forall i :: 0 <= i < |s| ==> !IsSeparator(s[i])
    ensures StripSeparators(s) == s
  {
    if s != [] {
      StripWithoutSeparators(s[1..]);
      assert s == [s[0]] + s[1..];
    }
  }

  /**
   * The normaliser as a table. The hyphen and underscore spellings of
   * "in progress" it also compares against can never be what `Key` returns,
   * so they play no part.
   */
  lemma NormalizeTable(text: string)
    ensures Key(text) != "in-progress" && Key(text) != "in_progress"
    ensures Normalize(text) ==
      if Key(text) == "hold" || Key(text) == "onhold" then "hold"
      else if Key(text) == "inprogress" then "inProgress"
      else if Key(text) == "open" then "open"
      else if Key(text) == "escalated" then "escalated"
      else Key(text)
  {
    KeyHasNoSeparators(text);
    var t := Key(text);
    if |t| == |"in-progress"| {
      assert !IsSeparator(t[2]);
    }
  }

  /** Normalising an already normalised status changes nothing. */
  lemma NormalizeIdempotent(text: string)
    ensures Normalize(Normalize(text)) == Normalize(text)
  {
    var r := Normalize(text);
    if r != "" {
      StripWithoutSeparators(r);
      if r == "inProgress" {
        NormalizeCoreKey(InProgress);
      } else {
        assert Key(r) == r;
        NormalizeTable(r);
        NormalizeTable(text);
      }
    }
  }

  predicate IsAsciiLetter(c: char) {
    'a' <= c <= 'z' || 'A' <= c <= 'Z'
  }

  lemma StripLetters(s: string)
    requires forall i :: 0 <= i < |s| ==> IsAsciiLetter(s[i])
    ensures StripSeparators(s) == s
  {
    StripWithoutSeparators(s);
  }

  /** The key of a core status is a fixed point of the normaliser. */
  lemma NormalizeCoreKey(s: CoreStatus)
    ensures Normalize(s.Key()) == s.Key()
  {
    match s
    case Open => NormalizeLetters(s.Key(), "open");
    case Hold => NormalizeLetters(s.Key(), "hold");
    case InProgress => NormalizeLetters(s.Key(), "inprogress");
    case Escalated => NormalizeLetters(s.Key(), "escalated");
  }

  lemma NormalizeLetters(k: string, lowered: string)
    requires k != [] && forall i :: 0 <= i < |k| ==> IsAsciiLetter(k[i])
    requires Lower(k) == lowered
    ensures Normalize(k) == if lowered == "inprogress" then "inProgress" else if lowered == "onhold" then "hold" else lowered
  {
    KeyOfLetters(k, lowered);
    NormalizeTable(k);
  }

  lemma KeyOfLetters(s: string, lowered: string)
    requires forall i :: 0 <= i < |s| ==> IsAsciiLetter(s[i])
    requires Lower(s) == lowered
    ensures Key(s) == lowered
  {
    StripLetters(s);
  }

  lemma {:induction false} StripConcat(a: string, b: string)
    ensures StripSeparators(a + b) == StripSeparators(a) + StripSeparators(b)
  {
    if a == [] {
      assert a + b == b;
    } else {
      var h := if IsSeparator(a[0]) then [] else [a[0]];
      assert (a + b)[0] == a[0] && (a + b)[1..] == a[1..] + b;
      StripConcat(a[1..], b);
      calc {
        StripSeparators(a + b);
        h + StripSeparators(a[1..] + b);
        h + (StripSeparators(a[1..]) + StripSeparators(b));
        (h + StripSeparators(a[1..])) + StripSeparators(b);
        StripSeparators(a) + StripSeparators(b);
      }
    }
  }

  /** A spelling the dashboard meets in practice: case is ignored. */
  lemma NormalizeExampleHold(text: string)
    requires text == "Hold"
    ensures Normalize(text) == "hold"
  {
    StripLetters(text);
    assert Lower(text) == "hold";
  }

  /** Spellings the dashboard meets in practice: separators are dropped and case is ignored. */
  lemma NormalizeExamplesSeparated(text: string)
    requires text == "on_hold" || text == "ON-HOLD"
    ensures Normalize(text) == "hold"
  {
    if text == "on_hold" {
      assert text == "on" + ['_'] + "hold";
      SplitAtSeparator("on", '_', "hold");
      assert Lower("on" + "hold") == "onhold";
    } else {
      assert text == "ON" + ['-'] + "HOLD";
      SplitAtSeparator("ON", '-', "HOLD");
      assert Lower("ON" + "HOLD") == "onhold";
    }
  }

  /** Deleting one separator between two words of letters, then lower-casing. */
  lemma SplitAtSeparator(a: string, c: char, b: string)
    requires c == ' ' || c == '-' || c == '_'
    requires forall i :: 0 <= i < |a| ==> IsAsciiLetter(a[i])
    requires forall i :: 0 <= i < |b| ==> IsAsciiLetter(b[i])
    ensures Key(a + [c] + b) == Lower(a + b)
  {
    StripLetters(a);
    StripLetters(b);
    StripAround(a, c, b);
  }

  lemma StripAround(a: string, c: char, b: string)
    requires IsSeparator(c) && StripSeparators(a) == a && StripSeparators(b) == b
    ensures StripSeparators(a + [c] + b) == a + b
  {
    var cb := [c] + b;
    assert cb[0] == c && cb[1..] == b;
    assert StripSeparators(cb) == b;
    StripConcat(a, cb);
    assert a + [c] + b == a + cb;
  }

  /**
   * `statusMapSort[sortKey] ?? 99`, where the pending projection first maps the
   * normalised status "inprogress" to "inProgress".
   */
  function StatusRank(norm: string): (r: nat)
    ensures r in {0, 1, 2, 3, 99}
    ensures forall k :: 0 <= k < |StatusOrder| && norm == StatusOrder[k].Key() ==> r == k
    ensures r != 99 ==> norm == StatusOrder[r].Key() || norm == "inprogress"
  {
    var sortKey := if norm == "inprogress" then "inProgress" else norm;
    if sortKey == "open" then 0
    else if sortKey == "hold" then 1
    else if sortKey == "inprogress" || sortKey == "inProgress" then 2
    else if sortKey == "escalated" then 3
    else 99
  }

  /**
   * The precedence is the position in `statusOrder` for the four core statuses
   * and 99, after all of them, for any other normalised text.
   */
  lemma StatusRankOfNormalized(text: string)
    ensures forall k :: 0 <= k < |StatusOrder| && Normalize(text) == StatusOrder[k].Key() ==> StatusRank(Normalize(text)) == k
    ensures (forall s: CoreStatus :: Normalize(text) != s.Key()) ==> StatusRank(Normalize(text)) == 99
    ensures StatusRank(Normalize(text)) in {0, 1, 2, 3, 99}
  {
    var r := Normalize(text);
    NormalizeTable(text);
    if forall s: CoreStatus :: r != s.Key() {
      assert r != Open.Key() && r != Hold.Key() && r != InProgress.Key() && r != Escalated.Key();
      assert r != "inprogress";
    }
  }
}
