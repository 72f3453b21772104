/** The `/predict/slice` endpoint: route the upload by its file name, run the
    placeholder model on the decoded image or on the middle slice of the
    decoded volume, and answer with the encoded mask and an overlay or the
    slice, or with an error.

    Reading the upload, decoding it (PIL, nibabel) and encoding the answer
    (PNG, base64, JSON) are outside the model: the decoded image and volume
    are parameters, and the answer carries the arrays that would be encoded. */
module Endpoint {
  import opened Segmentation
  import opened Overlay
  import opened Routing

  /** What the endpoint answers. */
  datatype Response<V> =
    | ImageResponse(mask: array2<byte>, overlay: array2<Rgb>)
    | VolumeResponse(image: array2<V>, mask: array2<byte>)
    | ErrorResponse(status: nat, message: string)
      /** An exception the endpoint does not catch (HTTP 500). */
    | ServerError

  /** `vol[:, :, depth // 2]`: the middle slice along the third axis, which
      exists whenever the volume has at least one slice. */
  method MiddleSlice<V>(volume: array3<V>) returns (slice: array2<V>)
    requires volume.Length2 >= 1
    ensures fresh(slice)
    ensures slice.Length0 == volume.Length0 && slice.Length1 == volume.Length1
    ensures forall i, j :: 0 <= i < volume.Length0 && 0 <= j < volume.Length1 ==>
              slice[i, j] == volume[i, j, MiddleSliceIndex(volume.Length2)]
  {
    var k := MiddleSliceIndex(volume.Length2);
    slice := new V[volume.Length0, volume.Length1]((i, j)
      requires 0 <= i < volume.Length0 && 0 <= j < volume.Length1 reads volume =>
      volume[i, j, k]);
  }

  /** The endpoint. An image upload is answered with the disc mask (0/255)
      and the image painted red on the disc; a volume upload with its middle
      slice and the disc mask of that slice's shape (indexing an empty third
      axis, or taking the minimum of an empty slice, raises); any other name
      with a 400 error. */
  method PredictSlice<V>(filename: string, decoded: array2<Rgb>, volume: array3<V>)
    returns (resp: Response<V>)
    ensures resp.ImageResponse? ==> fresh(resp.mask) && fresh(resp.overlay)
    ensures resp.VolumeResponse? ==> fresh(resp.image) && fresh(resp.mask)
    ensures RouteUpload(filename).Rejected? ==>
              resp.ErrorResponse? && resp.status == 400 && resp.message == "Invalid file type"
    ensures RouteUpload(filename).ImageRoute? ==>
              && resp.ImageResponse?
              && resp.mask.Length0 == decoded.Length0 && resp.mask.Length1 == decoded.Length1
              && resp.overlay.Length0 == decoded.Length0 && resp.overlay.Length1 == decoded.Length1
              && forall y, x :: 0 <= y < decoded.Length0 && 0 <= x < decoded.Length1 ==>
                   && resp.mask[y, x] == (if InDisc(decoded.Length0, decoded.Length1, y, x) then 255 else 0)
                   && resp.overlay[y, x] == if InDisc(decoded.Length0, decoded.Length1, y, x) then Red else decoded[y, x]
    ensures RouteUpload(filename).VolumeRoute? ==>
              if volume.Length2 == 0 || volume.Length0 == 0 || volume.Length1 == 0 then resp.ServerError?
              else
                && resp.VolumeResponse?
                && resp.image.Length0 == volume.Length0 && resp.image.Length1 == volume.Length1
                && resp.mask.Length0 == volume.Length0 && resp.mask.Length1 == volume.Length1
                && forall i, j :: 0 <= i < volume.Length0 && 0 <= j < volume.Length1 ==>
                     && resp.image[i, j] == volume[i, j, MiddleSliceIndex(volume.Length2)]
                     && resp.mask[i, j] == if InDisc(volume.Length0, volume.Length1, i, j) then 255 else 0
  {
    var route := RouteUpload(filename);
    match route
    case ImageRoute =>
      var mask := RunModel(decoded);
      var overlay := PaintOverlay(decoded, mask);
      var encoded := EncodeMask(mask);
      resp := ImageResponse(encoded, overlay);
    case VolumeRoute(_) =>
      if volume.Length2 == 0 {
        resp := ServerError;
      } else {
        var mid := MiddleSlice(volume);
        if mid.Length0 == 0 || mid.Length1 == 0 {
          resp := ServerError;
        } else {
          var mask := RunModel(mid);
          var encoded := EncodeMask(mask);
          resp := VolumeResponse(mid, encoded);
        }
      }
    case Rejected(status, message) =>
      resp := ErrorResponse(status, message);
  }
}
