/**
 * Key-column detection: the geography and time keys come first, followed by
 * every bracket-quoted header in header order, except the reporting-type
 * column.
 */
module KeyColumns {

  const GeoKey := "GeoAreaCode"
  const TimeKey := "TimePeriod"
  const ReportingType := "[Reporting Type]"

  /** A header that names a dimension: bracket-quoted, and not the reporting type. */
  predicate IsDimension(h: string) {
    h != ReportingType && |h| > 0 && h[0] == '['
  }

  /** The dimension headers of `headers`, in header order. */
  function Dimensions(headers: seq<string>): seq<string>
  {
    if headers == [] then []
    else
      var last := headers[|headers| - 1];
      Dimensions(headers[..|headers| - 1]) + if IsDimension(last) then [last] else []
  }

  /** The key columns of a table with these headers. */
  function KeyColumnsOf(headers: seq<string>): seq<string>
  {
    [GeoKey, TimeKey] + Dimensions(headers)
  }

  /** `get_key_columns`: the fixed keys, then the loop appending every dimension header. */
  method GetKeyColumns(headers: seq<string>) returns (res: seq<string>)
    ensures res == KeyColumnsOf(headers)
  {
    res := [GeoKey, TimeKey];
    for i := 0 to |headers|
      invariant res == [GeoKey, TimeKey] + Dimensions(headers[..i])
    {
      var c := headers[i];
      assert headers[..i + 1][..i] == headers[..i];
      if c == ReportingType {
        continue;
      }
      if |c| > 0 && c[0] == '[' {
        res := res + [c];
      }
    }
    assert headers[..|headers|] == headers;
  }

  /** A header is kept exactly when it is a dimension header. */
  lemma {:induction false} DimensionsMembership(headers: seq<string>, h: string)
    ensures h in Dimensions(headers) <==> h in headers && IsDimension(h)
  {
    if headers != [] {
      var init := headers[..|headers| - 1];
      DimensionsMembership(init, h);
      assert headers == init + [headers[|headers| - 1]];
    }
  }

  /** Filtering distributes over concatenation, so header order is kept. */
  lemma {:induction false} DimensionsAppend(a: seq<string>, b: seq<string>)
    ensures Dimensions(a + b) == Dimensions(a) + Dimensions(b)
  {
    if b == [] {
      assert a + b == a;
    } else {
      var b' := b[..|b| - 1];
      assert (a + b)[..|a + b| - 1] == a + b';
      DimensionsAppend(a, b');
    }
  }

  /** Every element of `Dimensions` is a dimension header. */
  lemma {:induction false} DimensionsAreDimensions(headers: seq<string>)
    ensures forall i :: 0 <= i < |Dimensions(headers)| ==> IsDimension(Dimensions(headers)[i])
  {
    if headers != [] {
      DimensionsAreDimensions(headers[..|headers| - 1]);
    }
  }

  /**
   * The key columns start with the two fixed keys, hold exactly the
   * dimension headers after them, and never hold the reporting type.
   */
  lemma KeyColumnsShape(headers: seq<string>)
    ensures |KeyColumnsOf(headers)| >= 2
    ensures KeyColumnsOf(headers)[0] == GeoKey && KeyColumnsOf(headers)[1] == TimeKey
    ensures forall h :: h in KeyColumnsOf(headers)[2..] <==> h in headers && IsDimension(h)
    ensures forall i :: 2 <= i < |KeyColumnsOf(headers)| ==> IsDimension(KeyColumnsOf(headers)[i])
    ensures ReportingType !in KeyColumnsOf(headers)
  {
    var keys := KeyColumnsOf(headers);
    assert keys[2..] == Dimensions(headers);
    forall h
      ensures h in keys[2..] <==> h in headers && IsDimension(h)
    {
      DimensionsMembership(headers, h);
    }
    DimensionsAreDimensions(headers);
  }
}
