/**
 * `run_etl_process`: fetch, then, only when some video was fetched,
 * transform, save and upload. The stages' I/O is represented by the effects
 * they are asked to perform, in the order they run.
 */
module Etl {
  import opened Videos
  import opened Export

  /** One stage run and the data it is given. */
  datatype Effect =
    | Transform(rows: seq<VideoInfo>)
    | Save(file: string, rows: seq<VideoInfo>)
    | Upload(file: string, key: string)

  /** The stages a run performs on a search response, with the clock reading `now`. */
  function RunEtl(items: seq<Item>, now: DateTime): seq<Effect>
    requires now.Valid()
  {
    var videos := KeepVideos(items);
    if videos == [] then []
    else
      var rows := TransformAll(videos);
      var file := ComposeFilename(DefaultBase, Stamp(now));
      [Transform(rows), Save(file, rows), Upload(file, file)]
  }

  /** Nothing is transformed, saved or uploaded exactly when the response holds no video. */
  lemma RunEtlSkipsIffNoVideos(items: seq<Item>, now: DateTime)
    requires now.Valid()
    ensures RunEtl(items, now) == [] <==> forall i :: 0 <= i < |items| ==> !IsVideo(items[i])
  {
    KeepVideosLength(items);
  }

  /**
   * With at least one video, transform, save and upload each run once, in
   * that order: the saved rows are the transformed records, one per video
   * item; the file is `youtube_data_<timestamp>.csv`; it is uploaded under
   * its own name.
   */
  lemma RunEtlStages(items: seq<Item>, now: DateTime)
    requires now.Valid()
    requires exists i :: 0 <= i < |items| && IsVideo(items[i])
    ensures var effects := RunEtl(items, now);
      && |effects| == 3
      && effects[0].Transform? && effects[1].Save? && effects[2].Upload?
      && effects[1].rows == effects[0].rows == TransformAll(KeepVideos(items))
      && |effects[1].rows| == CountVideos(items) <= |items|
      && effects[1].file == "youtube_data_" + Stamp(now) + CsvExt
      && effects[2].file == effects[1].file && effects[2].key == effects[1].file
  {
    KeepVideosLength(items);
    DefaultFilename(Stamp(now));
  }

  /**
   * The job written with the imperative stages: the records built by the
   * fetch loop are rewritten in place, and the run asks for exactly the
   * effects `RunEtl` describes.
   */
  method RunEtlProcess(items: seq<Item>, now: DateTime) returns (effects: seq<Effect>)
    requires now.Valid()
    ensures effects == RunEtl(items, now)
  {
    var videoData, _ := GetVideos(items);
    if videoData != [] {
      var transformed := TransformData(videoData);
      var rows := Values(transformed);
      var filename := ComposeFilename(DefaultBase, Stamp(now));
      effects := [Transform(rows), Save(filename, rows), Upload(filename, filename)];
    } else {
      effects := [];
    }
  }
}
