/** The auction records the script works on, after the columns it uses have been coerced
    (BidCoverRatio.py lines 44-45): the auction date as a day number, the free-form maturity
    label, and the bid-to-cover ratio as `pd.to_numeric(errors='coerce')` leaves it. */
module Auctions {
  import opened Wrappers

  /** One row of the auctions table. `bidToCoverRatio` is None where the feed's value did not
      parse as a number (NaN in the DataFrame). */
  datatype AuctionRecord = AuctionRecord(auctionDate: int, securityTerm: string, bidToCoverRatio: Option<real>)

  /** Embeds the day number in the reals, preserving order, so that one sort serves both keys. */
  function DateKey(r: AuctionRecord): real {
    r.auctionDate as real
  }
}
