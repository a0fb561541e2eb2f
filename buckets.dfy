/**
  The bucket resolver: a capture date, or its absence, chosen as the name of a
  destination directory. A date gives "<year>-<month>" with both numbers in
  plain decimal (no zero-padding); no date gives "unsorted".
 */
module Buckets {
  import opened Wrappers
  import opened Strings
  import opened Paths

  /** A month number as `time.Month` holds it: January is 1, December is 12. */
  type Month = m: int | 1 <= m <= 12 witness 1

  /** The part of a capture time that the bucket name uses. */
  datatype Date = Date(year: int, month: Month)

  /**
    The result of reading a file's capture time: `Some(date)` when the metadata
    yielded a date, `None` when opening, decoding or finding the date field failed.
   */
  type Capture = Option<Date>

  const Unsorted: string := "unsorted"

  /** `strconv.Itoa(year) + "-" + strconv.Itoa(month)`, or "unsorted" without a date. */
  function BucketName(capture: Capture): (name: string)
    ensures Separator !in name
    ensures capture.None? <==> name == Unsorted
  {
    match capture
    case None => Unsorted
    case Some(d) =>
      var y, m := Itoa(d.year), Itoa(d.month);
      assert forall i :: 0 <= i < |y| ==> (y + "-" + m)[i] == y[i];
      assert forall i :: 0 <= i < |m| ==> (y + "-" + m)[|y| + 1 + i] == m[i];
      y + "-" + m
  }

  /** The directory a file with this capture result is copied into. */
  function BucketDir(dest: string, capture: Capture): string {
    Join(dest, BucketName(capture))
  }

  /**
    Reads a bucket name back: `Some(capture)` for a name BucketName can produce,
    splitting a date name at its last '-' and accepting only numerals in the
    form strconv.Itoa writes.
   */
  function ParseBucketName(name: string): Option<Capture> {
    if name == Unsorted then Some(None)
    else
      var k := LastIndex(name, '-');
      if k < 0 then None
      else
        var y, m := name[..k], name[k + 1..];
        if CanonicalInt(y) && CanonicalNat(m) && 1 <= StringToNat(m) <= 12
        then Some(Some(Date(Atoi(y), StringToNat(m))))
        else None
  }

  /** Every bucket name reads back as the capture result it was made from. */
  lemma BucketNameRoundTrip(capture: Capture)
    ensures ParseBucketName(BucketName(capture)) == Some(capture)
  {
    if capture.Some? {
      var d := capture.value;
      var y, m := Itoa(d.year), Itoa(d.month);
      var name := y + "-" + m;
      assert name[0] == y[0];
      assert name[|y|] == '-';
      assert forall i :: |y| < i < |name| ==> name[i] == m[i - |y| - 1];
      assert LastIndex(name, '-') == |y|;
      assert name[..|y|] == y && name[|y| + 1..] == m;
      ItoaRoundTrip(d.year);
      ItoaRoundTrip(d.month);
    }
  }

  /**
    The parser accepts only names BucketName writes: a parsed name is the
    bucket name of its capture result, so padded or signed numerals such as
    "2023-03" or "+2023-3" are rejected.
   */
  lemma ParseBucketNameExact(name: string, capture: Capture)
    requires ParseBucketName(name) == Some(capture)
    ensures BucketName(capture) == name
  {
    if name != Unsorted {
      var k := LastIndex(name, '-');
      var y, m := name[..k], name[k + 1..];
      AtoiRoundTrip(y);
      StringToNatRoundTrip(m);
      assert y + "-" + m == name;
    }
  }

  /** Distinct capture results never share a bucket; in particular no date maps to "unsorted". */
  lemma BucketNameInjective(c1: Capture, c2: Capture)
    ensures BucketName(c1) == BucketName(c2) ==> c1 == c2
  {
    BucketNameRoundTrip(c1);
    BucketNameRoundTrip(c2);
  }

  /** A photo taken in March 2023 goes to the directory "2023-3". */
  lemma March2023()
    ensures BucketName(Some(Date(2023, 3))) == "2023-3"
  {
  }

  lemma July2021()
    ensures BucketName(Some(Date(2021, 7))) == "2021-7"
  {
  }

  lemma April2024()
    ensures BucketName(Some(Date(2024, 4))) == "2024-4"
  {
  }

  /** A file without a capture date goes to `dest/unsorted`. */
  lemma NoDateIsUnsorted(dest: string)
    ensures BucketDir(dest, None) == dest + "/unsorted"
  {
  }
}
