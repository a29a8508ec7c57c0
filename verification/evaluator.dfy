/**
 * Evaluation of one campaign detail page (backend/crawler.py,
 * `fetch_campaign_data`): an ordered chain of exclusion rules over facts read
 * from the page, then the `" & "`-joined result line and the public/hidden
 * split. HTML parsing is not modelled: a `Page` holds the facts the parser
 * would locate, as raw (unstripped) texts.
 */
module Evaluator {
  import opened Options
  import opened Strings

  /** A `div.row.col-sm4.col-12` block: its title cell and its right-aligned value cell, when present. */
  datatype Section = Section(title: Option<string>, value: Option<string>)

  datatype Page = Page(
    loginRedirect: bool,             // the script that sends the browser to /usr/login_form
    participation: Option<string>,   // text of the disabled `butn butn-success` button
    heading: Option<string>,         // text of the first <h3>
    endedButton: bool,               // button "종료된 캠페인 입니다"
    unavailableAlert: bool,          // div#alert_msg "해당 캠페인은 참여가 불가능한 상태입니다."
    outsideHoursButton: bool,        // button "참여 가능 시간이 아닙니다"
    joinButton: bool,                // button "캠페인 참여"
    priceValue: Option<string>,      // right-aligned div after the "총 결제금액" label, when both exist
    sections: seq<Section>,
    shopAlt: Option<string>,         // alt of the first <img> inside div.col-sm-9, when present
    textReviewLabel: bool            // label "텍스트 리뷰"
  )

  /** The outcome of fetching a detail page. */
  datatype Fetch = FetchFailed | Loaded(page: Page)

  /** Why a campaign was dropped; the code only returns None, the reason names the rule that fired. */
  datatype Reason = TransportError | LoginWall | DayNotSelected | NotOpen | ExcludedKeyword | BelowPriceFloor

  datatype Decision = Excluded(reason: Reason) | IncludedHidden(line: string) | IncludedPublic(line: string)
  {
    predicate Included() { !Excluded? }
  }

  datatype Price = PriceUnknown | Amount(digits: string)

  const HourMarker := "시에"
  const HourRewrite := "시 00분에"
  const NoProductName := "상품명 없음"
  const NoPrice := "가격 정보 없음"
  const NoProductType := "상품구분 없음"
  const NoShopName := "쇼핑몰 정보 없음"
  const PhotoReview := "포토 리뷰"
  const TextReview := "텍스트 리뷰"
  const ShippingTitle := "배송"
  const OtherShipping := "기타배송"
  const ActualShipping := "실배송"
  const SmartStore := "스마트스토어"
  const Coupang := "쿠팡"
  const SmartStoreFloor := 90000
  const CoupangFloor := 28500
  const ActualShippingFloor := 8500
  const Separator := " & "
  const Host := "https://gto.shopreview.co.kr"
  const UserArea := "/usr"
  const DetailPage := "/campaign_detail?"
  const UrlBase := Host + UserArea + DetailPage
  const IdParam := "csq="

  // ---------------------------------------------------------------------------
  // Participation time and the day token

  /**
   * The stripped button text with every "시에" rewritten to "시 00분에": no
   * "시에" is left, and the day token is the one of the stripped text.
   */
  function ParticipationTime(p: Page): (r: string)
    ensures !Contains(r, HourMarker)
    ensures DayToken(r) == DayToken(Strip(p.participation.GetOr("")))
  {
    var s := Strip(p.participation.GetOr(""));
    HourRewriteRemovesMarker(s);
    HourRewriteKeepsDayToken(s);
    ReplaceAll(s, HourMarker, HourRewrite)
  }

  /** Two digits followed by "일" start at position `i`. */
  predicate DayTokenAt(s: string, i: int)
  {
    0 <= i && i + 3 <= |s| && IsDigit(s[i]) && IsDigit(s[i + 1]) && s[i + 2] == '일'
  }

  function DayTokenFrom(s: string, from: nat): (r: Option<nat>)
    requires from <= |s|
    ensures r.Some? ==> from <= r.value && DayTokenAt(s, r.value)
    ensures r.Some? ==> forall j :: from <= j < r.value ==> !DayTokenAt(s, j)
    ensures r.None? ==> forall j :: from <= j ==> !DayTokenAt(s, j)
    decreases |s| - from
  {
    if DayTokenAt(s, from) then Some(from)
    else if from == |s| then None
    else DayTokenFrom(s, from + 1)
  }

  /** A day token starts at `i` and at no earlier position. */
  predicate FirstDayTokenAt(s: string, i: int)
  {
    DayTokenAt(s, i) && forall j :: 0 <= j < i ==> !DayTokenAt(s, j)
  }

  /** The leftmost match of `(\d{2})일`, as `re.search(...).group(0)`. */
  function DayToken(s: string): (r: Option<string>)
    ensures r.Some? ==> |r.value| == 3 && IsDigit(r.value[0]) && IsDigit(r.value[1]) && r.value[2] == '일'
    ensures r.Some? ==> exists i :: FirstDayTokenAt(s, i) && r.value == s[i..i + 3]
    ensures r.None? <==> forall j :: !DayTokenAt(s, j)
  {
    match DayTokenFrom(s, 0)
    case None => None
    case Some(i) =>
      assert FirstDayTokenAt(s, i);
      Some(s[i..i + 3])
  }

  predicate DaySelected(time: string, selectedDays: seq<string>)
  {
    DayToken(time).Some? && DayToken(time).value in selectedDays
  }

  // ---------------------------------------------------------------------------
  // The remaining facts

  /** The stripped heading with every '&' removed, or the placeholder. */
  function ProductName(p: Page): (name: string)
    ensures '&' !in name
  {
    match p.heading
    case Some(h) => RemoveChar(Strip(h), '&')
    case None => NoProductName
  }

  /** Any of the four markers that the campaign cannot be joined now. */
  predicate NotOpenNow(p: Page)
  {
    p.endedButton || p.unavailableAlert || p.outsideHoursButton || p.joinButton
  }

  /** Some keyword is a case-sensitive substring of the product name. */
  predicate HasExcludedKeyword(name: string, keywords: seq<string>)
  {
    exists k :: k in keywords && Contains(name, k)
  }

  /** The digits of the price cell; the placeholder when the cell is missing or holds no digit. */
  function PriceOf(p: Page): (r: Price)
    ensures r.Amount? ==> |r.digits| > 0 && AllDigits(r.digits)
  {
    match p.priceValue
    case None => PriceUnknown
    case Some(text) =>
      var d := DigitsOf(text);
      if |d| > 0 then Amount(d) else PriceUnknown
  }

  function PriceText(price: Price): string
  {
    match price
    case PriceUnknown => NoPrice
    case Amount(d) => d
  }

  /** A section with both cells whose title mentions "배송". */
  predicate IsShippingSection(s: Section)
  {
    s.title.Some? && s.value.Some? && Contains(s.title.value, ShippingTitle)
  }

  /** Section `k` is a shipping section and no earlier one is. */
  predicate FirstShippingAt(sections: seq<Section>, k: int)
  {
    0 <= k < |sections| && IsShippingSection(sections[k])
    && forall j :: 0 <= j < k ==> !IsShippingSection(sections[j])
  }

  /** The stripped value of the first section whose title mentions "배송", or the placeholder when none does. */
  function ShippingType(sections: seq<Section>): (r: string)
    ensures r == NoProductType || exists k :: 0 <= k < |sections| && IsShippingSection(sections[k])
                                            && r == Strip(sections[k].value.value)
  {
    if |sections| == 0 then NoProductType
    else
      var s := sections[0];
      if IsShippingSection(s) then Strip(s.value.value)
      else ShippingType(sections[1..])
  }

  /**
   * The loop over the sections stops at the first one that qualifies: with
   * no shipping section the type is the placeholder, otherwise it is the
   * stripped value of the first one.
   */
  lemma {:induction false} ShippingTypeIsFirst(sections: seq<Section>)
    ensures (forall k :: 0 <= k < |sections| ==> !IsShippingSection(sections[k])) ==> ShippingType(sections) == NoProductType
    ensures forall k :: FirstShippingAt(sections, k) ==> ShippingType(sections) == Strip(sections[k].value.value)
  {
    if |sections| > 0 && !IsShippingSection(sections[0]) {
      var rest := sections[1..];
      ShippingTypeIsFirst(rest);
      forall k | FirstShippingAt(sections, k)
        ensures FirstShippingAt(rest, k - 1)
      {
        assert k > 0;
        forall j | 0 <= j < k - 1
          ensures !IsShippingSection(rest[j])
        {
          assert rest[j] == sections[j + 1];
        }
      }
      forall k | 0 <= k < |rest|
        ensures rest[k] == sections[k + 1]
      {
      }
    }
  }

  function ShopName(p: Page): string
  {
    match p.shopAlt
    case Some(alt) => Strip(alt)
    case None => NoShopName
  }

  function ReviewType(p: Page): string
  {
    if p.textReviewLabel then TextReview else PhotoReview
  }

  /** The three minimum-price rules (all with strict `<`). */
  predicate BelowFloor(productType: string, shop: string, price: nat)
  {
    || (Contains(productType, OtherShipping) && Contains(shop, SmartStore) && price < SmartStoreFloor)
    || (Contains(productType, OtherShipping) && Contains(shop, Coupang) && price < CoupangFloor)
    || (Contains(productType, ActualShipping) && price < ActualShippingFloor)
  }

  /** The least price that passes the rules for this shipping type and shop. */
  function Floor(productType: string, shop: string): (f: nat)
    ensures f in {0, SmartStoreFloor, CoupangFloor, ActualShippingFloor}
  {
    var a := if Contains(productType, OtherShipping) && Contains(shop, SmartStore) then SmartStoreFloor else 0;
    var b := if Contains(productType, OtherShipping) && Contains(shop, Coupang) then CoupangFloor else 0;
    var c := if Contains(productType, ActualShipping) then ActualShippingFloor else 0;
    var ab := if a >= b then a else b;
    if ab >= c then ab else c
  }

  /** The three rules amount to one threshold per shipping type and shop. */
  lemma BelowFloorIffUnderThreshold(productType: string, shop: string, price: nat)
    ensures BelowFloor(productType, shop, price) <==> price < Floor(productType, shop)
  {
  }

  /** A price that passes the rules still passes when it is raised. */
  lemma FloorMonotone(productType: string, shop: string, price: nat, higher: nat)
    requires price <= higher && !BelowFloor(productType, shop, price)
    ensures !BelowFloor(productType, shop, higher)
  {
    BelowFloorIffUnderThreshold(productType, shop, price);
    BelowFloorIffUnderThreshold(productType, shop, higher);
  }

  function CampaignUrl(id: int): string
  {
    UrlBase + IdParam + IntToString(id)
  }

  /** The six fields read off the page, in display order; the price and the product name never hold '&'. */
  function PageFields(p: Page): (r: seq<string>)
    ensures |r| == 6
    ensures '&' !in r[3] && '&' !in r[5]
  {
    PriceLacksAmpersand(PriceOf(p));
    [ShippingType(p.sections), ReviewType(p), ShopName(p), PriceText(PriceOf(p)),
     ParticipationTime(p), ProductName(p)]
  }

  /**
   * The seven fields of an accepted campaign, in display order; the price,
   * the product name and the URL never hold '&'.
   */
  function LineFields(id: int, p: Page): (r: seq<string>)
    ensures |r| == 7
    ensures '&' !in r[3] && '&' !in r[5] && '&' !in r[6]
  {
    UrlLacksAmpersand(id);
    PageFields(p) + [CampaignUrl(id)]
  }

  /** The `" & "`-joined fields; the line ends with the campaign URL. */
  function ResultLine(id: int, p: Page): (r: string)
    ensures |CampaignUrl(id)| <= |r| && r[|r| - |CampaignUrl(id)|..] == CampaignUrl(id)
  {
    JoinEndsWithLast(LineFields(id, p), Separator);
    Join(LineFields(id, p), Separator)
  }

  // ---------------------------------------------------------------------------
  // The decision

  /** The rules stated as one conjunction, independently of the order the code checks them in. */
  predicate Eligible(p: Page, selectedDays: seq<string>, excludeKeywords: seq<string>)
  {
    && !p.loginRedirect
    && DaySelected(ParticipationTime(p), selectedDays)
    && !NotOpenNow(p)
    && !HasExcludedKeyword(ProductName(p), excludeKeywords)
    && (PriceOf(p).Amount? ==> !BelowFloor(ShippingType(p.sections), ShopName(p), DigitsToNat(PriceOf(p).digits)))
  }

  /** `fetch_campaign_data` for campaign `id`, given what fetching its page produced. */
  function Evaluate(id: int, fetch: Fetch, publicIds: set<int>, selectedDays: seq<string>,
                    excludeKeywords: seq<string>): (r: Decision)
    ensures r.Included() <==> fetch.Loaded? && Eligible(fetch.page, selectedDays, excludeKeywords)
    ensures r.IncludedPublic? ==> id in publicIds
    ensures r.IncludedHidden? ==> id !in publicIds
    ensures r.Included() ==> r.line == ResultLine(id, fetch.page)
    ensures r == Excluded(TransportError) <==> fetch.FetchFailed?
    ensures r == Excluded(LoginWall) <==> fetch.Loaded? && fetch.page.loginRedirect
  {
    match fetch
    case FetchFailed => Excluded(TransportError)
    case Loaded(p) =>
      if p.loginRedirect then Excluded(LoginWall)
      else
        var time := ParticipationTime(p);
        var name := ProductName(p);
        if !DaySelected(time, selectedDays) then Excluded(DayNotSelected)
        else if NotOpenNow(p) then Excluded(NotOpen)
        else if HasExcludedKeyword(name, excludeKeywords) then Excluded(ExcludedKeyword)
        else
          var price := PriceOf(p);
          var productType := ShippingType(p.sections);
          var shop := ShopName(p);
          if price.Amount? && BelowFloor(productType, shop, DigitsToNat(price.digits)) then Excluded(BelowPriceFloor)
          else
            var line := ResultLine(id, p);
            if id in publicIds then IncludedPublic(line) else IncludedHidden(line)
  }

  // ---------------------------------------------------------------------------
  // Properties

  lemma SeparatorMarked()
    ensures Marks(Separator, '&', 1)
  {
  }

  lemma UrlLacksAmpersand(id: int)
    ensures '&' !in CampaignUrl(id)
  {
    var digits := IntToString(id);
    assert '&' !in Host && '&' !in UserArea && '&' !in DetailPage && '&' !in IdParam;
    assert CampaignUrl(id) == UrlBase + IdParam + digits;
    forall i | 0 <= i < |digits|
      ensures digits[i] != '&'
    {
      if id < 0 && i > 0 {
        assert digits[i] == digits[1..][i - 1];
      }
    }
    assert '&' !in digits;
  }

  /**
   * When the three free-text fields that may hold '&' do not, splitting the
   * result line on " & " gives back the seven fields: the product name is the
   * sixth and the campaign URL the last.
   */
  lemma ResultLineSplits(id: int, p: Page)
    requires '&' !in ShippingType(p.sections) && '&' !in ShopName(p) && '&' !in ParticipationTime(p)
    ensures Split(ResultLine(id, p), Separator) == LineFields(id, p)
    ensures |LineFields(id, p)| == 7 && LineFields(id, p)[5] == ProductName(p)
    ensures LineFields(id, p)[6] == CampaignUrl(id)
  {
    var fields := LineFields(id, p);
    var pf := PageFields(p);
    assert fields == pf + [CampaignUrl(id)];
    assert pf[0] == ShippingType(p.sections) && pf[2] == ShopName(p) && pf[4] == ParticipationTime(p);
    assert pf[1] == ReviewType(p);
    ReviewLacksAmpersand(p);
    FieldsClean(fields);
    SeparatorMarked();
    SplitJoin(fields, Separator, '&', 1);
  }

  lemma FieldsClean(fields: seq<string>)
    requires |fields| == 7
    requires '&' !in fields[0] && '&' !in fields[1] && '&' !in fields[2] && '&' !in fields[3]
    requires '&' !in fields[4] && '&' !in fields[5] && '&' !in fields[6]
    ensures forall k :: 0 <= k < |fields| ==> '&' !in fields[k]
  {
  }

  lemma ReviewLacksAmpersand(p: Page)
    ensures '&' !in ReviewType(p)
  {
    assert '&' !in TextReview && '&' !in PhotoReview;
  }

  lemma PriceLacksAmpersand(price: Price)
    requires price.Amount? ==> AllDigits(price.digits)
    ensures '&' !in PriceText(price)
  {
    if price.Amount? {
      assert forall i :: 0 <= i < |price.digits| ==> price.digits[i] != '&';
    } else {
      assert '&' !in NoPrice;
    }
  }

  /**
   * Two campaigns with the same page get the same verdict, directory
   * membership alone picks the table, and their lines differ only in the URL.
   */
  lemma VerdictIgnoresId(a: int, b: int, fetch: Fetch, publicIds: set<int>, days: seq<string>, keywords: seq<string>)
    ensures Evaluate(a, fetch, publicIds, days, keywords).Included()
            <==> Evaluate(b, fetch, publicIds, days, keywords).Included()
    ensures Evaluate(a, fetch, publicIds, days, keywords).Included()
            ==> (Evaluate(a, fetch, publicIds, days, keywords).IncludedPublic? <==> a in publicIds)
                && (Evaluate(b, fetch, publicIds, days, keywords).IncludedPublic? <==> b in publicIds)
    ensures fetch.Loaded? ==> LineFields(a, fetch.page)[..6] == LineFields(b, fetch.page)[..6]
  {
    if fetch.Loaded? {
      LineFieldsIgnoreId(a, b, fetch.page);
    }
  }

  /** Only the last field of a line, the URL, depends on the campaign id. */
  lemma LineFieldsIgnoreId(a: int, b: int, p: Page)
    ensures LineFields(a, p)[..6] == LineFields(b, p)[..6]
  {
    assert LineFields(a, p)[..6] == PageFields(p);
    assert LineFields(b, p)[..6] == PageFields(p);
  }

  // ---------------------------------------------------------------------------
  // The hour rewrite, over every text

  /** The day token found is `s[i..i + 3]` for the leftmost `i`. */
  lemma DayTokenIsFirst(s: string, i: int)
    requires FirstDayTokenAt(s, i)
    ensures DayToken(s) == Some(s[i..i + 3])
  {
  }

  /** `m` cannot take part in a day token: it starts with neither a digit nor '일', ends with a non-digit and holds none. */
  predicate BlocksDayTokens(m: string)
  {
    |m| > 0 && !IsDigit(m[0]) && m[0] != '일' && !IsDigit(m[|m| - 1]) && forall j :: 0 <= j < |m| ==> !DayTokenAt(m, j)
  }

  /** Around a blocking text, the day tokens are those of the two sides. */
  lemma DayTokenAtSplice(x: string, m: string, y: string, j: int)
    requires BlocksDayTokens(m)
    ensures DayTokenAt(x + m + y, j)
            <==> (j + 3 <= |x| && DayTokenAt(x, j)) || (j >= |x| + |m| && DayTokenAt(y, j - |x| - |m|))
  {
    var s := x + m + y;
    if 0 <= j && j + 3 <= |s| {
      if j + 3 <= |x| {
        assert s[j] == x[j] && s[j + 1] == x[j + 1] && s[j + 2] == x[j + 2];
      } else if j < |x| {
        assert s[|x|] == m[0];
      } else if j < |x| + |m| {
        var k := j - |x|;
        if k + 3 <= |m| {
          assert s[j] == m[k] && s[j + 1] == m[k + 1] && s[j + 2] == m[k + 2];
          assert !DayTokenAt(m, k);
        } else {
          assert s[|x| + |m| - 1] == m[|m| - 1];
        }
      } else {
        var k := j - |x| - |m|;
        assert s[j] == y[k] && s[j + 1] == y[k + 1] && s[j + 2] == y[k + 2];
      }
    }
  }

  /** The leftmost day token around a blocking text is the left side's, or else the right side's. */
  lemma DayTokenSplice(x: string, m: string, y: string)
    requires BlocksDayTokens(m)
    ensures DayToken(x + m + y) == if DayToken(x).Some? then DayToken(x) else DayToken(y)
  {
    var s := x + m + y;
    forall j
      ensures DayTokenAt(s, j)
              <==> (j + 3 <= |x| && DayTokenAt(x, j)) || (j >= |x| + |m| && DayTokenAt(y, j - |x| - |m|))
    {
      DayTokenAtSplice(x, m, y, j);
    }
    if DayToken(x).Some? {
      var i :| FirstDayTokenAt(x, i) && DayToken(x).value == x[i..i + 3];
      assert s[i..i + 3] == x[i..i + 3];
      DayTokenIsFirst(s, i);
    } else if DayToken(y).Some? {
      var i :| FirstDayTokenAt(y, i) && DayToken(y).value == y[i..i + 3];
      var n := |x| + |m| + i;
      assert s[n..n + 3] == y[i..i + 3];
      assert FirstDayTokenAt(s, n);
      DayTokenIsFirst(s, n);
    }
  }

  lemma MarkersBlock()
    ensures BlocksDayTokens(HourMarker) && BlocksDayTokens(HourRewrite)
  {
    var w := HourRewrite;
    assert w == ['시', ' ', '0', '0', '분', '에'];
    assert forall j :: 0 <= j < |w| ==> !DayTokenAt(w, j);
  }

  /** Rewriting every "시에" keeps the day token the crawler looks for. */
  lemma {:induction false} HourRewriteKeepsDayToken(s: string)
    ensures DayToken(ReplaceAll(s, HourMarker, HourRewrite)) == DayToken(s)
    decreases |s|
  {
    match FindFirst(s, HourMarker)
    case None =>
    case Some(i) =>
      var rest := s[i + |HourMarker|..];
      ReplaceAllStep(s, HourMarker, HourRewrite, i);
      HourRewriteKeepsDayToken(rest);
      assert s == s[..i] + HourMarker + rest;
      MarkersBlock();
      DayTokenSplice(s[..i], HourMarker, rest);
      DayTokenSplice(s[..i], HourRewrite, ReplaceAll(rest, HourMarker, HourRewrite));
  }

  /** "시에" occurs nowhere in `x + y` when it occurs in neither and the seam does not form it. */
  lemma MarkerFreeConcat(x: string, y: string)
    requires !Contains(x, HourMarker) && !Contains(y, HourMarker)
    requires |x| > 0 && |y| > 0 ==> !(x[|x| - 1] == '시' && y[0] == '에')
    ensures !Contains(x + y, HourMarker)
  {
    var s := x + y;
    forall j | OccursAt(s, HourMarker, j)
      ensures false
    {
      assert s[j] == s[j..j + 2][0] == '시' && s[j + 1] == s[j..j + 2][1] == '에';
      if j + 2 <= |x| {
        assert x[j..j + 2] == s[j..j + 2];
        assert OccursAt(x, HourMarker, j);
      } else if j >= |x| {
        assert y[j - |x|..j - |x| + 2] == s[j..j + 2];
        assert OccursAt(y, HourMarker, j - |x|);
      }
    }
  }

  /** The text before the leftmost "시에" holds none. */
  lemma MarkerFreePrefix(s: string, i: nat)
    requires FindFirst(s, HourMarker) == Some(i)
    ensures !Contains(s[..i], HourMarker)
  {
    forall j | OccursAt(s[..i], HourMarker, j)
      ensures false
    {
      assert s[..i][j..j + 2] == s[j..j + 2];
      assert OccursAt(s, HourMarker, j);
    }
  }

  lemma RewriteMarkerFree()
    ensures !Contains(HourRewrite, HourMarker)
  {
    var w := HourRewrite;
    assert w == ['시', ' ', '0', '0', '분', '에'];
    forall j | 0 <= j && j + 2 <= |w|
      ensures !OccursAt(w, HourMarker, j)
    {
      assert w[j..j + 2][0] == w[j] && w[j..j + 2][1] == w[j + 1];
    }
  }

  /** After the rewrite no "시에" is left. */
  lemma {:induction false} HourRewriteRemovesMarker(s: string)
    ensures !Contains(ReplaceAll(s, HourMarker, HourRewrite), HourMarker)
    decreases |s|
  {
    match FindFirst(s, HourMarker)
    case None =>
    case Some(i) =>
      var rest := s[i + |HourMarker|..];
      var done := ReplaceAll(rest, HourMarker, HourRewrite);
      ReplaceAllStep(s, HourMarker, HourRewrite, i);
      HourRewriteRemovesMarker(rest);
      MarkerFreePrefix(s, i);
      RewriteMarkerFree();
      MarkerFreeConcat(s[..i], HourRewrite);
      var left := s[..i] + HourRewrite;
      assert left[|left| - 1] == '에';
      MarkerFreeConcat(left, done);
  }

  /** "20일에 10시에" is shown as "20일에 10시 00분에" and carries the day token "20일". */
  lemma HourRewriteExample(p: Page)
    requires p.participation == Some("20일에 10시에")
    ensures ParticipationTime(p) == "20일에 10시 00분에"
    ensures DayToken(ParticipationTime(p)) == Some("20일")
  {
    var s := "20일에 10시에";
    StripExample();
    assert p.participation.GetOr("") == s;
    ReplaceExample();
    DayTokenExample();
  }

  lemma StripExample()
    ensures Strip("20일에 10시에") == "20일에 10시에"
  {
    var s := "20일에 10시에";
    assert !IsSpace(s[0]) && !IsSpace(s[|s| - 1]);
  }

  lemma ReplaceExample()
    ensures ReplaceAll("20일에 10시에", HourMarker, HourRewrite) == "20일에 10시 00분에"
  {
    HourMarkerSplitExample();
    assert Join(["20일에 10", ""], HourRewrite) == "20일에 10시 00분에";
  }

  lemma DayTokenExample()
    ensures DayToken("20일에 10시 00분에") == Some("20일")
  {
    var t := "20일에 10시 00분에";
    assert DayTokenAt(t, 0);
    assert t[0..3] == "20일";
  }

  lemma HourMarkerSplitExample()
    ensures Split("20일에 10시에", HourMarker) == ["20일에 10", ""]
  {
    var s := "20일에 10시에";
    assert OccursAt(s, HourMarker, 7);
    assert s[..7] == "20일에 10";
    assert '시' !in "20일에 10";
    forall j | 0 <= j < 7
      ensures !OccursAt(s, HourMarker, j)
    {
      assert s[j] == s[..7][j];
      assert s[j..j + 2][0] == s[j];
    }
    assert FindFirst(s, HourMarker) == Some(7);
    assert s[9..] == "";
    assert FindFirst("", HourMarker) == None;
  }

  /** With other-shipping and a SmartStore shop the only threshold that matters is 90000. */
  lemma SmartStoreThreshold(productType: string, shop: string, price: nat)
    requires Contains(productType, OtherShipping) && Contains(shop, SmartStore)
    ensures BelowFloor(productType, shop, price) <==> price < 90000
  {
  }

  /** 95000 passes the SmartStore rule and 50000 does not. */
  lemma SmartStoreExample()
    ensures !BelowFloor(OtherShipping, SmartStore, 95000)
    ensures BelowFloor(OtherShipping, SmartStore, 50000)
  {
    assert OccursAt(OtherShipping, OtherShipping, 0);
    assert OccursAt(SmartStore, SmartStore, 0);
    SmartStoreThreshold(OtherShipping, SmartStore, 95000);
    SmartStoreThreshold(OtherShipping, SmartStore, 50000);
  }

  /** A product name containing an exclude keyword drops the campaign, whatever the rest of the page. */
  lemma KeywordExcludes(id: int, p: Page, publicIds: set<int>, days: seq<string>, keywords: seq<string>, k: string)
    requires k in keywords && Contains(ProductName(p), k)
    ensures Evaluate(id, Loaded(p), publicIds, days, keywords).Excluded?
  {
  }

  /** The heading "텀블러 & 단독특가" is dropped by the keyword "단독". */
  lemma KeywordExample(id: int, p: Page, publicIds: set<int>, days: seq<string>)
    requires p.heading == Some("텀블러 & 단독특가")
    ensures Evaluate(id, Loaded(p), publicIds, days, ["단독"]).Excluded?
  {
    KeywordExampleName(p, "텀블러 & 단독특가");
    KeywordExampleOccurs();
    KeywordExcludes(id, p, publicIds, days, ["단독"], "단독");
  }

  lemma KeywordExampleOccurs()
    ensures Contains("텀블러  단독특가", "단독")
  {
    assert OccursAt("텀블러  단독특가", "단독", 5);
    ContainsAt("텀블러  단독특가", "단독", 5);
  }

  lemma KeywordExampleName(p: Page, h: string)
    requires p.heading == Some(h) && h == "텀블러 & 단독특가"
    ensures ProductName(p) == "텀블러  단독특가"
  {
    TrimmedExample(h);
    AmpersandRemovalExample();
  }

  lemma TrimmedExample(h: string)
    requires h == "텀블러 & 단독특가"
    ensures Trimmed(h)
  {
    assert h[0] == '텀';
    assert h[|h| - 1] == '가';
  }

  lemma AmpersandRemovalExample()
    ensures RemoveChar("텀블러 & 단독특가", '&') == "텀블러  단독특가"
  {
    var a := "텀블러 ";
    var b := " 단독특가";
    HeadingPieces(a, b);
    RemoveCharOnce(a, b, '&');
  }

  lemma HeadingPieces(a: string, b: string)
    requires a == "텀블러 " && b == " 단독특가"
    ensures "텀블러 & 단독특가" == a + ['&'] + b && a + b == "텀블러  단독특가"
    ensures '&' !in a && '&' !in b
  {
  }
}
