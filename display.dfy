/**
 * What the tool writes for people: the framed block of `display_text`, the
 * width of the URL column (`get_max_string_length`) and the result lines of
 * `display_hash` and `report_error`.
 */
module Display {
  import opened Text

  /** The longest length in a non-empty list. */
  function Longest(strings: seq<string>): (r: nat)
    requires strings != []
    ensures forall i :: 0 <= i < |strings| ==> |strings[i]| <= r
    ensures exists i :: 0 <= i < |strings| && r == |strings[i]|
  {
    if |strings| == 1 then |strings[0]|
    else
      var rest := Longest(strings[1..]);
      assert forall i :: 1 <= i < |strings| ==> strings[i] == strings[1..][i - 1];
      if |strings[0]| > rest then |strings[0]| else rest
  }

  /** `get_max_string_length(in_urls)`: the length of the longest URL, or 0 when there is none. */
  function MaxStringLength(inUrls: seq<string>): (r: nat)
    ensures forall i :: 0 <= i < |inUrls| ==> |inUrls[i]| <= r
    ensures inUrls == [] ==> r == 0
    ensures inUrls != [] ==> exists i :: 0 <= i < |inUrls| && r == |inUrls[i]|
  {
    if |inUrls| > 1 then Longest(inUrls)
    else if |inUrls| > 0 then |inUrls[0]|
    else 0
  }

  /**
   * `display_text(text, header)`: the five things it prints, in order. The
   * header is centred in a rule of dashes at least as wide as the longest
   * line of the text, with at least three dashes on each side, and the
   * closing rule is exactly as wide as the opening one.
   */
  method DisplayText(text: string, header: string) returns (printed: seq<string>)
    ensures |printed| == 5 && printed[1] == "" && printed[2] == text && printed[3] == ""
    ensures |printed[0]| == |printed[4]|
    ensures forall i :: 0 <= i < |printed[4]| ==> printed[4][i] == '-'
    ensures var pad := (|printed[0]| - |header|) / 2;
      && pad >= 3
      && printed[0] == Repeat('-', pad) + header + Repeat('-', pad)
    ensures forall line :: line in Split(text, '\n') ==> |line| <= |printed[4]|
    ensures |printed[4]| <= |header| + 7
         || exists line :: line in Split(text, '\n') && |printed[4]| <= |line| + 1
  {
    var lines := Split(text, '\n');
    var maxLineLength := 0;
    var i := 0;
    while i < |lines|
      invariant 0 <= i <= |lines|
      invariant forall j :: 0 <= j < i ==> |lines[j]| <= maxLineLength
      invariant maxLineLength == 0 || exists j :: 0 <= j < i && maxLineLength == |lines[j]|
    {
      var lineLength := |lines[i]|;
      if lineLength > maxLineLength {
        maxLineLength := lineLength;
      }
      i := i + 1;
    }

    var underLength := maxLineLength - |header|;
    if underLength <= 6 {
      underLength := 6;
    }
    assert 6 <= underLength && maxLineLength - |header| <= underLength
        && (underLength == 6 || underLength == maxLineLength - |header|);
    if underLength % 2 == 1 {
      underLength := underLength + 1;
    }
    assert underLength % 2 == 0 && 6 <= underLength && maxLineLength - |header| <= underLength
        && (underLength <= 7 || underLength <= maxLineLength - |header| + 1);
    underLength := underLength / 2;
    assert 3 <= underLength && maxLineLength <= underLength * 2 + |header|
        && (underLength * 2 + |header| <= |header| + 7 || underLength * 2 + |header| <= maxLineLength + 1);

    var top := Repeat('-', underLength) + header + Repeat('-', underLength);
    var bottom := Repeat('-', underLength * 2 + |header|);
    printed := [top, "", text, "", bottom];
    assert (|top| - |header|) / 2 == underLength;
    assert forall line :: line in lines ==> |line| <= maxLineLength by {
      forall line | line in lines ensures |line| <= maxLineLength {
        var j :| 0 <= j < |lines| && lines[j] == line;
      }
    }
    if maxLineLength > 0 {
      var j :| 0 <= j < |lines| && maxLineLength == |lines[j]|;
      assert lines[j] in lines;
    }
  }

  /** `f'[{index}]'.ljust(5)` */
  function IndexField(index: int): string {
    LJust("[" + IntToString(index) + "]", 5)
  }

  /** The line `display_hash(target_url, _hash, url_field_length, index)` writes. */
  function DisplayHashLine(targetUrl: string, hash: string, urlFieldLength: int, index: int): string {
    "\rsum " + IndexField(index) + " " + LJust(targetUrl, urlFieldLength) + " " + hash
  }

  /** The line `report_error(target_url, error, url_length, index)` writes; `args` are the exception's arguments. */
  function ReportErrorLine(targetUrl: string, args: seq<string>, urlLength: int, index: int): string {
    "\rsum " + IndexField(index) + " " + LJust(targetUrl, urlLength) + " " + Join(" ", args)
  }

  lemma {:induction false} NatToStringShort(n: nat)
    requires n < 1000
    ensures |NatToString(n)| <= 3
  {
    if n >= 10 {
      assert n / 10 < 100;
      if n / 10 >= 10 {
        assert n / 10 / 10 < 10;
        assert |NatToString(n / 10 / 10)| == 1;
      }
    }
  }

  lemma {:induction false} NatToStringLong(n: nat)
    requires n >= 1000
    ensures |NatToString(n)| >= 4
  {
    assert NatToString(n) == NatToString(n / 10) + [DigitChar(n % 10)];
    assert NatToString(n / 10) == NatToString(n / 10 / 10) + [DigitChar(n / 10 % 10)];
    assert NatToString(n / 10 / 10) == NatToString(n / 10 / 10 / 10) + [DigitChar(n / 10 / 10 % 10)];
  }

  /**
   * Any line built as `\rsum [index] url text`: the URL, never cut, starts
   * after the index field, and what follows it starts one space after the
   * padded URL field. The index field is five wide, putting the URL at
   * column 11, for every index below 1000; from 1000 on it is wider and
   * pushes the URL right.
   */
  lemma ColumnLayout(targetUrl: string, rest: string, width: int, index: int)
    ensures var line := "\rsum " + IndexField(index) + " " + LJust(targetUrl, width) + " " + rest;
      var start := 6 + |IndexField(index)|;
      var column := start + 1 + (if width > |targetUrl| then width else |targetUrl|);
      && |line| == column + |rest|
      && line[start..start + |targetUrl|] == targetUrl
      && line[column..] == rest
      && (0 <= index < 1000 ==> start == 11)
      && (index >= 1000 ==> start > 11)
  {
    if 0 <= index < 1000 {
      NatToStringShort(index);
      assert |IndexField(index)| == 5;
    } else if index >= 1000 {
      NatToStringLong(index);
      assert |IndexField(index)| >= 6;
    }
    var start := 6 + |IndexField(index)|;
    var line := "\rsum " + IndexField(index) + " " + LJust(targetUrl, width) + " " + rest;
    var field := LJust(targetUrl, width);
    assert line == ("\rsum " + IndexField(index) + " ") + field + " " + rest;
    assert line[start..start + |field|] == field;
  }

  /**
   * Hash lines and error lines share one layout: the URL is never cut, and
   * when every URL fits the column the hash (or the message) starts at the
   * same column on every line, whatever the URL.
   */
  lemma AlignedResultLines(targetUrl: string, hash: string, args: seq<string>, width: int, index: int)
    requires 0 <= index < 1000
    ensures var h := DisplayHashLine(targetUrl, hash, width, index);
      var e := ReportErrorLine(targetUrl, args, width, index);
      && h[11..11 + |targetUrl|] == targetUrl
      && e[11..11 + |targetUrl|] == targetUrl
      && (|targetUrl| <= width ==> h[12 + width..] == hash && e[12 + width..] == Join(" ", args))
  {
    ColumnLayout(targetUrl, hash, width, index);
    ColumnLayout(targetUrl, Join(" ", args), width, index);
  }
}
